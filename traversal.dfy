/**
 * The meaning of the `accept(Visitor)` method the plugin generates for every
 * class, as functions on node values: what the visitor receives and what
 * `accept` returns. The lemmas state the protocol's rules about it.
 */
module Traversal {
  import opened Wrappers
  import opened Schema
  import opened Tree
  import opened Visitors

  /** What one `accept` (or part of it) returns, and the calls the visitor received meanwhile. */
  datatype Outcome = Outcome(status: Action, events: seq<Event>)

  /** The final return: TERMINATE is kept, SKIP and CONTINUE become CONTINUE. */
  function Normalise(status: Action): (r: Action)
    ensures r != Skip
    ensures r == Terminate <==> status == Terminate
  {
    if status == Terminate then Terminate else Continue
  }

  /**
   * `n.accept(visitor)` where the deque holds `parents` and the visitor has
   * received `log`: visit itself, push itself if its class declares any
   * field, descend into the fields, pop, normalise the status.
   */
  function Accept(reg: Registry, vd: VisitorDef, n: Node, parents: seq<Node>, log: seq<Event>): (o: Outcome)
    requires WellTyped(reg, n)
    ensures o.status != Skip
    decreases n, 2
  {
    var status := Decide(reg, vd, n, parents, log);
    var visit := [Visited(n, parents, status)];
    if |Decls(reg, n)| == 0 then Outcome(Normalise(status), visit)
    else
      var f := AcceptFields(reg, vd, n, 0, status, [n] + parents, log + visit + [Pushed(n)]);
      Outcome(Normalise(f.status), visit + [Pushed(n)] + f.events + [Popped])
  }

  /** The field statements from field `i` on, entered with `status`. */
  function AcceptFields(reg: Registry, vd: VisitorDef, n: Node, i: nat, status: Action, parents: seq<Node>, log: seq<Event>): (o: Outcome)
    requires WellTyped(reg, n) && i <= |n.fields|
    decreases n, 1, |n.fields| - i
  {
    if i == |n.fields| then Outcome(status, [])
    else
      var here := AcceptField(reg, vd, n, i, status, parents, log);
      var rest := AcceptFields(reg, vd, n, i + 1, here.status, parents, log + here.events);
      Outcome(rest.status, here.events + rest.events)
  }

  /**
   * The statement generated for field `i`: a guarded `accept` of a scalar
   * traversable field, the loop over a list field, nothing for any other field.
   */
  function AcceptField(reg: Registry, vd: VisitorDef, n: Node, i: nat, status: Action, parents: seq<Node>, log: seq<Event>): (o: Outcome)
    requires WellTyped(reg, n) && i < |n.fields|
    decreases n, 1, |n.fields| - i, 0
  {
    assert FieldWellTyped(reg, n, i);
    match PlanOf(reg, Decls(reg, n)[i])
    case VisitScalar =>
      if status == Continue && n.fields[i].value.Visitable?
      then Accept(reg, vd, n.fields[i].value.node, parents, log)
      else Outcome(status, [])
    case Ignore => Outcome(status, [])
    case _ => AcceptItems(reg, vd, n, i, 0, status, parents, log)
  }

  /** The generated loop over list field `i` from index `j`: `status == CONTINUE && list != null && j < size`. */
  function AcceptItems(reg: Registry, vd: VisitorDef, n: Node, i: nat, j: nat, status: Action, parents: seq<Node>, log: seq<Event>): (o: Outcome)
    requires WellTyped(reg, n) && i < |n.fields|
    requires PlanOf(reg, Decls(reg, n)[i]) in {VisitEach, VisitVisitable}
    requires n.fields[i].List? ==> j <= |n.fields[i].items|
    decreases n, 0, |n.fields| - i, if n.fields[i].List? then |n.fields[i].items| - j else 0
  {
    if status != Continue || !n.fields[i].List? || j == |n.fields[i].items| then Outcome(status, [])
    else
      assert FieldWellTyped(reg, n, i);
      var item := n.fields[i].items[j];
      var here :=
        if PlanOf(reg, Decls(reg, n)[i]) == VisitEach then Accept(reg, vd, item.node, parents, log)
        else if item.Visitable? then Accept(reg, vd, item.node, parents, log)
        else Outcome(status, []);
      var rest := AcceptItems(reg, vd, n, i, j + 1, here.status, parents, log + here.events);
      Outcome(rest.status, here.events + rest.events)
  }

  // ---------------------------------------------------------------------
  // Once the status is not CONTINUE, no field is read any more

  /** One turn of the loop over a list field, entered with CONTINUE. */
  lemma ItemsStep(reg: Registry, vd: VisitorDef, n: Node, i: nat, j: nat, parents: seq<Node>, log: seq<Event>)
    requires WellTyped(reg, n) && i < |n.fields|
    requires PlanOf(reg, Decls(reg, n)[i]) in {VisitEach, VisitVisitable}
    requires n.fields[i].List? && j < |n.fields[i].items|
    ensures var item := n.fields[i].items[j];
            PlanOf(reg, Decls(reg, n)[i]) == VisitEach || item.Visitable? ==> item.Visitable? && WellTyped(reg, item.node)
    ensures var item := n.fields[i].items[j];
            var here := if PlanOf(reg, Decls(reg, n)[i]) == VisitEach || item.Visitable?
                        then Accept(reg, vd, item.node, parents, log) else Outcome(Continue, []);
            var rest := AcceptItems(reg, vd, n, i, j + 1, here.status, parents, log + here.events);
            AcceptItems(reg, vd, n, i, j, Continue, parents, log) == Outcome(rest.status, here.events + rest.events)
  {
    assert FieldWellTyped(reg, n, i);
  }

  lemma {:induction false} FieldsIdle(reg: Registry, vd: VisitorDef, n: Node, i: nat, status: Action, parents: seq<Node>, log: seq<Event>)
    requires WellTyped(reg, n) && i <= |n.fields|
    requires status != Continue
    ensures AcceptFields(reg, vd, n, i, status, parents, log) == Outcome(status, [])
    decreases |n.fields| - i
  {
    if i < |n.fields| {
      assert FieldWellTyped(reg, n, i);
      assert AcceptField(reg, vd, n, i, status, parents, log) == Outcome(status, []);
      assert log + [] == log;
      FieldsIdle(reg, vd, n, i + 1, status, parents, log);
    }
  }

  /**
   * If the node's own visit answers SKIP or TERMINATE, none of its fields is
   * descended into: the visitor only sees the self-visit and the push/pop
   * pair, and `accept` returns CONTINUE for SKIP and TERMINATE for TERMINATE.
   */
  lemma SelfStopPrunes(reg: Registry, vd: VisitorDef, n: Node, parents: seq<Node>, log: seq<Event>)
    requires WellTyped(reg, n)
    requires Decide(reg, vd, n, parents, log) != Continue
    ensures var status := Decide(reg, vd, n, parents, log);
            var o := Accept(reg, vd, n, parents, log);
            && o.status == (if status == Skip then Continue else Terminate)
            && o.events == [Visited(n, parents, status)] + (if |Decls(reg, n)| == 0 then [] else [Pushed(n), Popped])
  {
    var status := Decide(reg, vd, n, parents, log);
    if |Decls(reg, n)| > 0 {
      FieldsIdle(reg, vd, n, 0, status, [n] + parents, log + [Visited(n, parents, status)] + [Pushed(n)]);
    }
  }

  /**
   * `accept` brackets its field statements with pushParent(this) and
   * popParent() exactly when its class declares a field, whether or not any
   * of those fields is traversable; otherwise the visitor only sees the self-visit.
   */
  lemma PushPopIffFields(reg: Registry, vd: VisitorDef, n: Node, parents: seq<Node>, log: seq<Event>)
    requires WellTyped(reg, n)
    ensures var o := Accept(reg, vd, n, parents, log);
            |Decls(reg, n)| > 0 <==> |o.events| >= 3 && o.events[1] == Pushed(n) && o.events[|o.events| - 1] == Popped
    ensures |Decls(reg, n)| == 0 ==> Accept(reg, vd, n, parents, log).events == [Visited(n, parents, Decide(reg, vd, n, parents, log))]
  {
  }

  // ---------------------------------------------------------------------
  // The parents deque: pushes and pops balance and every visit sees the deque

  /** The deque after one call, or None if a pop meets an empty deque or a visit sees another deque. */
  function Step(stack: seq<Node>, e: Event): Option<seq<Node>>
  {
    match e
    case Visited(_, ancestors, _) => if ancestors == stack then Some(stack) else None
    case Pushed(m) => Some([m] + stack)
    case Popped => if stack == [] then None else Some(stack[1..])
  }

  /** Replays the calls against a deque that starts as `stack`. */
  function Replay(stack: seq<Node>, es: seq<Event>): Option<seq<Node>>
    decreases |es|
  {
    if es == [] then Some(stack)
    else match Step(stack, es[0])
      case None => None
      case Some(s) => Replay(s, es[1..])
  }

  lemma {:induction false} ReplayAppend(stack: seq<Node>, a: seq<Event>, b: seq<Event>)
    ensures Replay(stack, a + b) == match Replay(stack, a) case None => None case Some(s) => Replay(s, b)
    decreases |a|
  {
    if a == [] {
      assert a + b == b;
    } else {
      assert (a + b)[0] == a[0];
      assert (a + b)[1..] == a[1..] + b;
      match Step(stack, a[0])
      case None =>
      case Some(s) => ReplayAppend(s, a[1..], b);
    }
  }

  lemma ReplayBalancedAppend(stack: seq<Node>, a: seq<Event>, b: seq<Event>)
    requires Replay(stack, a) == Some(stack) && Replay(stack, b) == Some(stack)
    ensures Replay(stack, a + b) == Some(stack)
  {
    ReplayAppend(stack, a, b);
  }

  /**
   * Replaying the calls of one `accept` against the deque it started with
   * never pops an empty deque, shows every visit the deque as it then is,
   * and leaves the deque as it was, whatever the visitor answered.
   */
  lemma {:induction false} AcceptBalanced(reg: Registry, vd: VisitorDef, n: Node, parents: seq<Node>, log: seq<Event>)
    requires WellTyped(reg, n)
    ensures Replay(parents, Accept(reg, vd, n, parents, log).events) == Some(parents)
    decreases n, 2
  {
    var status := Decide(reg, vd, n, parents, log);
    var visit := [Visited(n, parents, status)];
    if |Decls(reg, n)| == 0 {
      assert Replay(parents, visit) == Replay(parents, []);
    } else {
      var inner := [n] + parents;
      var f := AcceptFields(reg, vd, n, 0, status, inner, log + visit + [Pushed(n)]);
      FieldsBalanced(reg, vd, n, 0, status, inner, log + visit + [Pushed(n)]);
      var open := visit + [Pushed(n)];
      assert Replay(parents, open) == Some(inner) by {
        assert open[1..] == [Pushed(n)];
        assert Replay(inner, [Pushed(n)][1..]) == Some(inner);
      }
      ReplayAppend(parents, open, f.events);
      ReplayAppend(parents, open + f.events, [Popped]);
      assert Replay(inner, [Popped]) == Some(parents) by {
        assert [Popped][1..] == [];
      }
    }
  }

  lemma {:induction false} FieldsBalanced(reg: Registry, vd: VisitorDef, n: Node, i: nat, status: Action, parents: seq<Node>, log: seq<Event>)
    requires WellTyped(reg, n) && i <= |n.fields|
    ensures Replay(parents, AcceptFields(reg, vd, n, i, status, parents, log).events) == Some(parents)
    decreases n, 1, |n.fields| - i
  {
    if i < |n.fields| {
      var here := AcceptField(reg, vd, n, i, status, parents, log);
      FieldBalanced(reg, vd, n, i, status, parents, log);
      FieldsBalanced(reg, vd, n, i + 1, here.status, parents, log + here.events);
      ReplayBalancedAppend(parents, here.events, AcceptFields(reg, vd, n, i + 1, here.status, parents, log + here.events).events);
    }
  }

  lemma {:induction false} FieldBalanced(reg: Registry, vd: VisitorDef, n: Node, i: nat, status: Action, parents: seq<Node>, log: seq<Event>)
    requires WellTyped(reg, n) && i < |n.fields|
    ensures Replay(parents, AcceptField(reg, vd, n, i, status, parents, log).events) == Some(parents)
    decreases n, 1, |n.fields| - i, 0
  {
    assert FieldWellTyped(reg, n, i);
    match PlanOf(reg, Decls(reg, n)[i])
    case VisitScalar =>
      if status == Continue && n.fields[i].value.Visitable? {
        AcceptBalanced(reg, vd, n.fields[i].value.node, parents, log);
      }
    case Ignore =>
    case _ => ItemsBalanced(reg, vd, n, i, 0, status, parents, log);
  }

  lemma {:induction false} ItemsBalanced(reg: Registry, vd: VisitorDef, n: Node, i: nat, j: nat, status: Action, parents: seq<Node>, log: seq<Event>)
    requires WellTyped(reg, n) && i < |n.fields|
    requires PlanOf(reg, Decls(reg, n)[i]) in {VisitEach, VisitVisitable}
    requires n.fields[i].List? ==> j <= |n.fields[i].items|
    ensures Replay(parents, AcceptItems(reg, vd, n, i, j, status, parents, log).events) == Some(parents)
    decreases n, 0, |n.fields| - i, if n.fields[i].List? then |n.fields[i].items| - j else 0
  {
    if status == Continue && n.fields[i].List? && j < |n.fields[i].items| {
      ItemsStep(reg, vd, n, i, j, parents, log);
      var item := n.fields[i].items[j];
      var visits := PlanOf(reg, Decls(reg, n)[i]) == VisitEach || item.Visitable?;
      var here := if visits then Accept(reg, vd, item.node, parents, log) else Outcome(status, []);
      if visits {
        AcceptBalanced(reg, vd, item.node, parents, log);
      }
      var rest := AcceptItems(reg, vd, n, i, j + 1, here.status, parents, log + here.events);
      assert AcceptItems(reg, vd, n, i, j, status, parents, log).events == here.events + rest.events;
      assert Replay(parents, here.events) == Some(parents) by {
        if !visits {
          assert here.events == [];
        }
      }
      ItemsBalanced(reg, vd, n, i, j + 1, here.status, parents, log + here.events);
      ReplayBalancedAppend(parents, here.events, rest.events);
    }
  }
}
