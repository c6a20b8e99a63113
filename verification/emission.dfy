/** `emit`: walking a connection list while the callbacks it makes append and erase nodes.
    A node is named by its allocation number; lists only grow at the end, so list order is
    allocation order. */
module Emission {
  import opened Registry

  datatype Edit = Append | Erase(n: Node)

  datatype Event =
    | Delivered(n: Node)
    | Appended(n: Node, ahead: bool)  // ahead: the saved next was not the end
    | Erased(n: Node)

  datatype Cursor = End | At(n: Node)

  /** at(k) are the edits made by the k-th callback. */
  datatype Callbacks = Callbacks(at: nat -> seq<Edit>)

  /* ---------- the node list ---------- */

  /** Strictly increasing, and allocated before next. */
  ghost predicate Ordered(list: seq<Node>, next: Node) {
    list == [] ||
    (list[0] < next && (forall m: Node :: m in list[1..] ==> list[0] < m) && Ordered(list[1..], next))
  }

  function Remove(list: seq<Node>, n: Node): seq<Node> {
    if list == [] then []
    else if list[0] == n then list[1..]
    else [list[0]] + Remove(list[1..], n)
  }

  function Edited(list: seq<Node>, next: Node, e: Edit): seq<Node> {
    match e
    case Append => list + [next]
    case Erase(n) => Remove(list, n)
  }

  function NextAfter(next: Node, e: Edit): Node {
    if e.Append? then next + 1 else next
  }

  function EditedAll(list: seq<Node>, next: Node, es: seq<Edit>): seq<Node>
    decreases es
  {
    if es == [] then list else EditedAll(Edited(list, next, es[0]), NextAfter(next, es[0]), es[1..])
  }

  function NextAfterAll(next: Node, es: seq<Edit>): Node
    decreases es
  {
    if es == [] then next else NextAfterAll(NextAfter(next, es[0]), es[1..])
  }

  /** An erase request counts as one when it names an allocated node. */
  function EventOf(next: Node, e: Edit, ahead: bool): seq<Event> {
    match e
    case Append => [Appended(next, ahead)]
    case Erase(n) => if n < next then [Erased(n)] else []
  }

  function EditEvents(next: Node, es: seq<Edit>, ahead: bool): seq<Event>
    decreases es
  {
    if es == [] then []
    else EventOf(next, es[0], ahead) + EditEvents(NextAfter(next, es[0]), es[1..], ahead)
  }

  lemma OrderedTail(list: seq<Node>, next: Node)
    requires Ordered(list, next) && list != []
    ensures Ordered(list[1..], next)
    ensures forall m: Node :: m in list[1..] ==> list[0] < m
    ensures forall m: Node :: m in list <==> m == list[0] || m in list[1..]
  {
    assert list == [list[0]] + list[1..];
  }

  lemma OrderedCons(n: Node, tail: seq<Node>, next: Node)
    requires Ordered(tail, next) && n < next && forall m: Node :: m in tail ==> n < m
    ensures Ordered([n] + tail, next)
  {
    assert ([n] + tail)[1..] == tail;
  }

  lemma {:induction false} OrderedBound(list: seq<Node>, next: Node)
    requires Ordered(list, next)
    ensures forall m: Node :: m in list ==> m < next
  {
    if list != [] {
      OrderedTail(list, next);
      OrderedBound(list[1..], next);
    }
  }

  lemma {:induction false} OrderedAppend(list: seq<Node>, next: Node)
    requires Ordered(list, next)
    ensures Ordered(list + [next], next + 1)
  {
    if list == [] {
      assert list + [next] == [next] && [next][1..] == [];
    } else {
      OrderedTail(list, next);
      OrderedAppend(list[1..], next);
      OrderedCons(list[0], list[1..] + [next], next + 1);
      assert list + [next] == [list[0]] + (list[1..] + [next]);
    }
  }

  lemma {:induction false} RemoveMembers(list: seq<Node>, n: Node, next: Node)
    requires Ordered(list, next)
    ensures Ordered(Remove(list, n), next)
    ensures forall m: Node :: m in Remove(list, n) <==> m in list && m != n
  {
    if list != [] {
      OrderedTail(list, next);
      if list[0] != n {
        RemoveMembers(list[1..], n, next);
        OrderedCons(list[0], Remove(list[1..], n), next);
      }
    }
  }

  lemma EditedOrdered(list: seq<Node>, next: Node, e: Edit)
    requires Ordered(list, next)
    ensures Ordered(Edited(list, next, e), NextAfter(next, e))
  {
    match e
    case Append => OrderedAppend(list, next);
    case Erase(n) => RemoveMembers(list, n, next);
  }

  lemma EditedMember(list: seq<Node>, next: Node, e: Edit, m: Node)
    requires Ordered(list, next)
    ensures m in Edited(list, next, e) <==> (m in list && e != Erase(m)) || (e.Append? && m == next)
  {
    match e
    case Append =>
    case Erase(n) => RemoveMembers(list, n, next);
  }

  lemma {:induction false} EditedAllOrdered(list: seq<Node>, next: Node, es: seq<Edit>)
    requires Ordered(list, next)
    ensures Ordered(EditedAll(list, next, es), NextAfterAll(next, es)) && next <= NextAfterAll(next, es)
    decreases es
  {
    if es != [] {
      EditedOrdered(list, next, es[0]);
      EditedAllOrdered(Edited(list, next, es[0]), NextAfter(next, es[0]), es[1..]);
    }
  }

  /** What a whole callback does to one node, read off its events. */
  lemma {:induction false} EditedAllMember(list: seq<Node>, next: Node, es: seq<Edit>, ahead: bool, m: Node)
    requires Ordered(list, next)
    ensures m in EditedAll(list, next, es) <==>
      (m in list || next <= m < NextAfterAll(next, es)) && Erased(m) !in EditEvents(next, es, ahead)
    ensures Appended(m, ahead) in EditEvents(next, es, ahead) <==> next <= m < NextAfterAll(next, es)
    ensures Appended(m, !ahead) !in EditEvents(next, es, ahead)
    ensures Erased(m) in EditEvents(next, es, ahead) ==> m < NextAfterAll(next, es)
    ensures m < next ==> (Erased(m) in EditEvents(next, es, ahead) <==> Erase(m) in es)
    decreases es
  {
    if es != [] {
      OrderedBound(list, next);
      EditedOrdered(list, next, es[0]);
      EditedMember(list, next, es[0], m);
      EditedAllOrdered(Edited(list, next, es[0]), NextAfter(next, es[0]), es[1..]);
      EditedAllMember(Edited(list, next, es[0]), NextAfter(next, es[0]), es[1..], ahead, m);
      assert es == [es[0]] + es[1..];
    }
  }

  lemma {:induction false} NoDeliveries(next: Node, es: seq<Edit>, ahead: bool)
    ensures forall e :: e in EditEvents(next, es, ahead) ==> !e.Delivered?
    decreases es
  {
    if es != [] {
      NoDeliveries(NextAfter(next, es[0]), es[1..], ahead);
    }
  }

  lemma {:induction false} EditedAllCons(n: Node, tail: seq<Node>, next: Node, es: seq<Edit>)
    requires Append !in es && Erase(n) !in es
    ensures EditedAll([n] + tail, next, es) == [n] + EditedAll(tail, next, es)
    decreases es
  {
    if es != [] {
      assert es[0] in es && forall e :: e in es[1..] ==> e in es;
      RemoveCons(n, tail, es[0].n);
      EditedAllCons(n, Remove(tail, es[0].n), next, es[1..]);
      assert EditedAll([n] + tail, next, es) == EditedAll([n] + Remove(tail, es[0].n), next, es[1..]);
    }
  }

  lemma RemoveCons(n: Node, tail: seq<Node>, m: Node)
    requires n != m
    ensures Remove([n] + tail, m) == [n] + Remove(tail, m)
  {
    assert ([n] + tail)[1..] == tail;
  }

  lemma {:induction false} EditedAllShrinks(list: seq<Node>, next: Node, es: seq<Edit>)
    ensures Append !in es ==> |EditedAll(list, next, es)| <= |list|
    decreases es
  {
    if es != [] {
      assert es[0] in es && forall e :: e in es[1..] ==> e in es;
      if es[0].Erase? {
        RemoveShrinks(list, es[0].n);
      }
      EditedAllShrinks(Edited(list, next, es[0]), NextAfter(next, es[0]), es[1..]);
    }
  }

  lemma {:induction false} RemoveShrinks(list: seq<Node>, n: Node)
    ensures |Remove(list, n)| <= |list|
  {
    if list != [] {
      RemoveShrinks(list[1..], n);
    }
  }

  /* ---------- the reference: what is still ahead ---------- */

  /** Callbacks append finitely often: from the quiet-th on, never. */
  ghost predicate Quiet(cb: Callbacks, quiet: nat) {
    forall k :: k >= quiet ==> Append !in cb.at(k)
  }

  /** The events of a walk over the nodes ahead, starting with the k-th callback. */
  ghost function Trace(ahead: seq<Node>, next: Node, k: nat, cb: Callbacks, quiet: nat): seq<Event>
    requires Quiet(cb, quiet)
    decreases if k < quiet then quiet - k else 0, |ahead|
  {
    if ahead == [] then []
    else if |ahead| == 1 then [Delivered(ahead[0])] + EditEvents(next, cb.at(k), false)
    else
      EditedAllShrinks(ahead[1..], next, cb.at(k));
      [Delivered(ahead[0])] + EditEvents(next, cb.at(k), true) +
      Trace(EditedAll(ahead[1..], next, cb.at(k)), NextAfterAll(next, cb.at(k)), k + 1, cb, quiet)
  }

  /** No callback erases the node saved as next. */
  ghost predicate Polite(ahead: seq<Node>, next: Node, k: nat, cb: Callbacks, quiet: nat)
    requires Quiet(cb, quiet)
    decreases if k < quiet then quiet - k else 0, |ahead|
  {
    |ahead| <= 1 ||
    (EditedAllShrinks(ahead[1..], next, cb.at(k));
     Erase(ahead[1]) !in cb.at(k) &&
     Polite(EditedAll(ahead[1..], next, cb.at(k)), NextAfterAll(next, cb.at(k)), k + 1, cb, quiet))
  }

  /* ---------- what a trace says ---------- */

  /** n is erased with no delivery of n before it. */
  ghost predicate ErasedFirst(t: seq<Event>, n: Node) {
    t != [] && (t[0] == Erased(n) || (t[0] != Delivered(n) && ErasedFirst(t[1..], n)))
  }

  ghost function Deliveries(t: seq<Event>): seq<Node> {
    if t == [] then []
    else (if t[0].Delivered? then [t[0].n] else []) + Deliveries(t[1..])
  }

  lemma {:induction false} ErasedFirstAfter(a: seq<Event>, b: seq<Event>, n: Node)
    requires Delivered(n) !in a
    ensures ErasedFirst(a + b, n) <==> Erased(n) in a || ErasedFirst(b, n)
  {
    if a == [] {
      assert a + b == b;
    } else {
      assert (a + b)[1..] == a[1..] + b;
      ErasedFirstAfter(a[1..], b, n);
    }
  }

  lemma {:induction false} DeliveriesAfter(a: seq<Event>, b: seq<Event>)
    requires forall e :: e in a ==> !e.Delivered?
    ensures Deliveries(a + b) == Deliveries(b)
  {
    if a == [] {
      assert a + b == b;
    } else {
      assert a[0] in a && (a + b)[1..] == a[1..] + b;
      DeliveriesAfter(a[1..], b);
    }
  }

  lemma {:induction false} DeliveriesMembers(t: seq<Event>)
    ensures forall n: Node :: n in Deliveries(t) <==> Delivered(n) in t
  {
    if t != [] {
      DeliveriesMembers(t[1..]);
      assert t == [t[0]] + t[1..];
    }
  }

  /* ---------- delivery is exact ---------- */

  /** n is delivered exactly when it was ahead at the start, or was appended while the saved next was
      not the end, and was not erased before its turn. */
  ghost predicate ExactAt(t: seq<Event>, ahead: seq<Node>, next: Node, n: Node) {
    ExactIf(t, n in ahead, next, n)
  }

  ghost predicate ExactIf(t: seq<Event>, isAhead: bool, next: Node, n: Node) {
    && (Delivered(n) in t <==> (isAhead || Appended(n, true) in t) && !ErasedFirst(t, n))
    && (Appended(n, true) in t || Appended(n, false) in t ==> next <= n)
    && (Appended(n, true) in t ==> Appended(n, false) !in t)
  }

  /** What is ahead after a callback: still ordered, and shorter once callbacks only erase. */
  lemma LaterOrdered(ahead: seq<Node>, next: Node, es: seq<Edit>)
    requires Ordered(ahead, next) && ahead != []
    ensures Ordered(EditedAll(ahead[1..], next, es), NextAfterAll(next, es))
    ensures next <= NextAfterAll(next, es)
    ensures Append !in es ==> |EditedAll(ahead[1..], next, es)| < |ahead|
  {
    EditedAllShrinks(ahead[1..], next, es);
    EditedAllOrdered(ahead[1..], next, es);
  }

  lemma InThree(e: Event, a: Event, b: seq<Event>, c: seq<Event>)
    ensures e in [a] + b + c <==> e == a || e in b || e in c
  {
  }

  lemma ExactCombine(first: Node, events: seq<Event>, tail: seq<Event>, n: Node,
                     isAhead: bool, isLater: bool, next: Node, next': Node)
    requires n != first && next <= next' && (isAhead ==> n < next)
    requires forall e :: e in events ==> !e.Delivered?
    requires Appended(n, true) in events <==> next <= n < next'
    requires Appended(n, false) !in events && (Erased(n) in events ==> n < next')
    requires isLater <==> (isAhead || next <= n < next') && Erased(n) !in events
    requires ExactIf(tail, isLater, next', n)
    ensures ExactIf([Delivered(first)] + events + tail, isAhead, next, n)
  {
    var t := [Delivered(first)] + events + tail;
    InThree(Delivered(n), Delivered(first), events, tail);
    InThree(Appended(n, true), Delivered(first), events, tail);
    InThree(Appended(n, false), Delivered(first), events, tail);
    assert t[1..] == events + tail;
    ErasedFirstAfter(events, tail, n);
  }

  lemma ExactFirst(n: Node, events: seq<Event>, tail: seq<Event>, next: Node)
    requires n < next && Appended(n, true) !in events + tail && Appended(n, false) !in events + tail
    ensures ExactIf([Delivered(n)] + events + tail, true, next, n)
  {
    InThree(Appended(n, true), Delivered(n), events, tail);
    InThree(Appended(n, false), Delivered(n), events, tail);
  }

  /** One delivery and its callback in front of an exact tail, for one node. */
  lemma ExactStepAt(ahead: seq<Node>, next: Node, es: seq<Edit>, tail: seq<Event>, n: Node)
    requires Ordered(ahead, next) && |ahead| > 1
    requires ExactAt(tail, EditedAll(ahead[1..], next, es), NextAfterAll(next, es), n)
    ensures ExactAt([Delivered(ahead[0])] + EditEvents(next, es, true) + tail, ahead, next, n)
  {
    var events, later := EditEvents(next, es, true), EditedAll(ahead[1..], next, es);
    OrderedTail(ahead, next);
    OrderedBound(ahead, next);
    EditedAllOrdered(ahead[1..], next, es);
    EditedAllMember(ahead[1..], next, es, true, n);
    NoDeliveries(next, es, true);
    if n == ahead[0] {
      ExactFirst(n, events, tail, next);
    } else {
      ExactCombine(ahead[0], events, tail, n, n in ahead, n in later, next, NextAfterAll(next, es));
    }
  }

  /** The last node ahead: whatever its callback appends is not delivered. */
  lemma ExactLastAt(n0: Node, next: Node, es: seq<Edit>, n: Node)
    requires n0 < next
    ensures ExactAt([Delivered(n0)] + EditEvents(next, es, false), [n0], next, n)
  {
    var events := EditEvents(next, es, false);
    EditedAllMember([], next, es, false, n);
    NoDeliveries(next, es, false);
    assert ([Delivered(n0)] + events)[1..] == events;
  }

  ghost predicate Increasing(ds: seq<Node>) {
    forall i, j :: 0 <= i < j < |ds| ==> ds[i] < ds[j]
  }

  lemma IncreasingCons(n: Node, ds: seq<Node>)
    requires Increasing(ds) && forall m: Node :: m in ds ==> n < m
    ensures Increasing([n] + ds)
  {
    assert forall i :: 0 <= i < |ds| ==> ds[i] in ds;
  }

  lemma DeliveriesStep(n: Node, next: Node, es: seq<Edit>, more: bool, tail: seq<Event>)
    ensures Deliveries([Delivered(n)] + EditEvents(next, es, more) + tail) == [n] + Deliveries(tail)
  {
    var events := EditEvents(next, es, more);
    NoDeliveries(next, es, more);
    DeliveriesAfter(events, tail);
    assert ([Delivered(n)] + events + tail)[1..] == events + tail;
  }

  /** Deliveries come in list order, so no node is delivered twice; the first is the first ahead. */
  ghost predicate InOrder(t: seq<Event>, ahead: seq<Node>, next: Node) {
    && Increasing(Deliveries(t))
    && forall n: Node :: n in Deliveries(t) ==> n in ahead || next <= n
  }

  lemma InOrderStep(ahead: seq<Node>, next: Node, es: seq<Edit>, tail: seq<Event>)
    requires Ordered(ahead, next) && |ahead| > 1
    requires InOrder(tail, EditedAll(ahead[1..], next, es), NextAfterAll(next, es))
    ensures InOrder([Delivered(ahead[0])] + EditEvents(next, es, true) + tail, ahead, next)
  {
    OrderedTail(ahead, next);
    EditedAllOrdered(ahead[1..], next, es);
    forall m: Node | m in Deliveries(tail)
      ensures ahead[0] < m && (m in ahead || next <= m)
    {
      EditedAllMember(ahead[1..], next, es, true, m);
    }
    DeliveriesStep(ahead[0], next, es, true, tail);
    IncreasingCons(ahead[0], Deliveries(tail));
  }

  lemma InOrderLast(n: Node, next: Node, es: seq<Edit>)
    ensures InOrder([Delivered(n)] + EditEvents(next, es, false), [n], next)
  {
    DeliveriesStep(n, next, es, false, []);
    assert [Delivered(n)] + EditEvents(next, es, false) + [] == [Delivered(n)] + EditEvents(next, es, false);
  }

  /** The main theorem on emission, node by node. */
  lemma {:induction false} DeliveryIsExact(ahead: seq<Node>, next: Node, k: nat, cb: Callbacks,
                                           quiet: nat, n: Node)
    requires Ordered(ahead, next) && Quiet(cb, quiet)
    ensures ExactAt(Trace(ahead, next, k, cb, quiet), ahead, next, n)
    decreases if k < quiet then quiet - k else 0, |ahead|
  {
    if |ahead| > 1 {
      LaterOrdered(ahead, next, cb.at(k));
      var later, next' := EditedAll(ahead[1..], next, cb.at(k)), NextAfterAll(next, cb.at(k));
      DeliveryIsExact(later, next', k + 1, cb, quiet, n);
      ExactStepAt(ahead, next, cb.at(k), Trace(later, next', k + 1, cb, quiet), n);
    } else if |ahead| == 1 {
      ExactLastAt(ahead[0], next, cb.at(k), n);
      assert ahead == [ahead[0]];
    }
  }

  lemma {:induction false} DeliveryIsOrdered(ahead: seq<Node>, next: Node, k: nat, cb: Callbacks, quiet: nat)
    requires Ordered(ahead, next) && Quiet(cb, quiet)
    ensures InOrder(Trace(ahead, next, k, cb, quiet), ahead, next)
    decreases if k < quiet then quiet - k else 0, |ahead|
  {
    if |ahead| > 1 {
      LaterOrdered(ahead, next, cb.at(k));
      var later, next' := EditedAll(ahead[1..], next, cb.at(k)), NextAfterAll(next, cb.at(k));
      DeliveryIsOrdered(later, next', k + 1, cb, quiet);
      InOrderStep(ahead, next, cb.at(k), Trace(later, next', k + 1, cb, quiet));
    } else if |ahead| == 1 {
      InOrderLast(ahead[0], next, cb.at(k));
      assert ahead == [ahead[0]];
    }
  }

  /** The guard on callbacks is exact: a saved next survives a callback exactly when it is not among
      the nodes the callback erases. */
  lemma SavedNextSurvives(list: seq<Node>, next: Node, saved: Node, es: seq<Edit>)
    requires Ordered(list, next) && saved in list
    ensures saved in EditedAll(list, next, es) <==> Erase(saved) !in es
  {
    EditedAllMember(list, next, es, true, saved);
    OrderedBound(list, next);
  }

  /** Callbacks that leave the list alone: every node is delivered, each once. */
  lemma {:induction false} QuietDeliversAll(ahead: seq<Node>, next: Node, k: nat, cb: Callbacks, quiet: nat)
    requires Quiet(cb, quiet) && forall j :: cb.at(j) == []
    ensures Deliveries(Trace(ahead, next, k, cb, quiet)) == ahead
    decreases |ahead|
  {
    if |ahead| > 1 {
      QuietDeliversAll(ahead[1..], next, k + 1, cb, quiet);
      var t := Trace(ahead, next, k, cb, quiet);
      assert t[1..] == Trace(ahead[1..], next, k + 1, cb, quiet);
    } else if |ahead| == 1 {
      var t := Trace(ahead, next, k, cb, quiet);
      assert t[1..] == [];
    }
  }

  /* ---------- the loop refines the reference ---------- */

  /** The nodes from n on. */
  ghost function From(list: seq<Node>, n: Node): seq<Node> {
    if list == [] || list[0] == n then list else From(list[1..], n)
  }

  lemma {:induction false} FromFacts(list: seq<Node>, next: Node, n: Node)
    requires Ordered(list, next) && n in list
    ensures From(list, n) != [] && From(list, n)[0] == n
    ensures forall m: Node :: m in From(list, n) ==> m in list && n <= m
    ensures Ordered(From(list, n), next)
  {
    OrderedTail(list, next);
    if list[0] != n {
      FromFacts(list[1..], next, n);
    }
  }

  lemma {:induction false} FromEdited(list: seq<Node>, next: Node, n: Node, e: Edit)
    requires Ordered(list, next) && n in list && e != Erase(n)
    ensures n in Edited(list, next, e)
    ensures From(Edited(list, next, e), n) == Edited(From(list, n), next, e)
  {
    EditedMember(list, next, e, n);
    if list[0] != n {
      OrderedTail(list, next);
      FromEdited(list[1..], next, n, e);
      match e
      case Append => assert (list + [next])[1..] == list[1..] + [next];
      case Erase(m) =>
        if list[0] == m {
          FromFacts(list[1..], next, n);
          RemoveAbsent(From(list[1..], n), m);
        }
    }
  }

  lemma {:induction false} RemoveAbsent(list: seq<Node>, n: Node)
    requires n !in list
    ensures Remove(list, n) == list
  {
    if list != [] {
      RemoveAbsent(list[1..], n);
    }
  }

  lemma {:induction false} FromEditedAll(list: seq<Node>, next: Node, n: Node, es: seq<Edit>)
    requires Ordered(list, next) && n in list && Erase(n) !in es
    ensures n in EditedAll(list, next, es)
    ensures From(EditedAll(list, next, es), n) == EditedAll(From(list, n), next, es)
    decreases es
  {
    if es != [] {
      assert es[0] in es && forall e :: e in es[1..] ==> e in es;
      EditedOrdered(list, next, es[0]);
      FromEdited(list, next, n, es[0]);
      FromEditedAll(Edited(list, next, es[0]), NextAfter(next, es[0]), n, es[1..]);
    }
  }

  /** Stepping an iterator over the node it is on. */
  function Successor(list: seq<Node>, n: Node): Cursor
    requires n in list
  {
    if list[0] != n then Successor(list[1..], n)
    else if |list| == 1 then End
    else At(list[1])
  }

  lemma {:induction false} SuccessorIsNext(list: seq<Node>, next: Node, n: Node)
    requires Ordered(list, next) && n in list
    ensures From(list, n) != []
    ensures Successor(list, n) == if |From(list, n)| == 1 then End else At(From(list, n)[1])
    ensures Successor(list, n).At? ==>
      Successor(list, n).n in list && From(list, Successor(list, n).n) == From(list, n)[1..]
  {
    OrderedTail(list, next);
    if list[0] != n {
      SuccessorIsNext(list[1..], next, n);
    } else if |list| > 1 {
      assert list[1] in list[1..];
    }
  }

  ghost function Ahead(list: seq<Node>, it: Cursor): seq<Node> {
    if it.End? then [] else From(list, it.n)
  }

  /** One round of the loop: the saved successor is still in the list, and what is ahead of it is
      what the reference walks next. */
  lemma EmitStep(list: seq<Node>, next: Node, n: Node, k: nat, cb: Callbacks, quiet: nat)
    requires Ordered(list, next) && n in list && Quiet(cb, quiet)
    requires Polite(From(list, n), next, k, cb, quiet)
    ensures
      var it := Successor(list, n);
      var list', next' := EditedAll(list, next, cb.at(k)), NextAfterAll(next, cb.at(k));
      && (it.At? ==> it.n in list')
      && Polite(Ahead(list', it), next', k + 1, cb, quiet)
      && Trace(From(list, n), next, k, cb, quiet) ==
           [Delivered(n)] + EditEvents(next, cb.at(k), it.At?) + Trace(Ahead(list', it), next', k + 1, cb, quiet)
      && (k >= quiet ==> |Ahead(list', it)| < |From(list, n)|)
  {
    FromFacts(list, next, n);
    SuccessorIsNext(list, next, n);
    var it := Successor(list, n);
    if it.At? {
      FromEditedAll(list, next, it.n, cb.at(k));
      LaterOrdered(From(list, n), next, cb.at(k));
    } else {
      var t := [Delivered(n)] + EditEvents(next, cb.at(k), false);
      assert t + [] == t;
    }
  }
}
