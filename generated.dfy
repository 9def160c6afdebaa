/**
 * The `accept(Visitor)` method the plugin generates for every class, as the
 * statements it runs: a local `status` reassigned field by field, an
 * indexed loop over each list field, and the visitor's deque changed through
 * pushParent/popParent. It is proved to do what Traversal.Accept describes.
 */
module Generated {
  import opened Schema
  import opened Tree
  import opened Visitors
  import opened Traversal

  method AcceptNode(reg: Registry, n: Node, v: Visitor) returns (result: Action)
    requires v.reg == reg && WellTyped(reg, n)
    modifies v
    ensures v.parents == old(v.parents)
    ensures var o := Accept(reg, v.def, n, old(v.parents), old(v.log));
            result == o.status && v.log == old(v.log) + o.events
    decreases n, 2
  {
    ghost var parents := v.parents;
    ghost var log := v.log;
    var fields := Decls(reg, n);

    var status := v.Visit(n);
    ghost var first := status;
    if |fields| > 0 {
      v.PushParent(n);
      ghost var f := AcceptFields(reg, v.def, n, 0, first, [n] + parents, v.log);
      status := AcceptFieldStatements(reg, n, status, v);
      var _ := v.PopParent();
      Nest(log, [Visited(n, parents, first)], [Pushed(n)], f.events, [Popped]);
      assert Accept(reg, v.def, n, parents, log) == Outcome(Normalise(f.status), [Visited(n, parents, first)] + [Pushed(n)] + f.events + [Popped]);
    } else {
      assert Accept(reg, v.def, n, parents, log) == Outcome(Normalise(status), [Visited(n, parents, first)]);
    }
    if status == Terminate {
      return Terminate;
    }
    return Continue;
  }

  /** The field statements of `n`'s class, in declaration order, with `n` on top of the deque. */
  method AcceptFieldStatements(reg: Registry, n: Node, entry: Action, v: Visitor) returns (status: Action)
    requires v.reg == reg && WellTyped(reg, n)
    modifies v
    ensures v.parents == old(v.parents)
    ensures var o := AcceptFields(reg, v.def, n, 0, entry, old(v.parents), old(v.log));
            status == o.status && v.log == old(v.log) + o.events
    decreases n, 1
  {
    ghost var parents := v.parents;
    ghost var start := v.log;
    ghost var done: seq<Event> := [];
    status := entry;
    var i := 0;
    while i < |n.fields|
      invariant 0 <= i <= |n.fields|
      invariant v.parents == parents
      invariant v.log == start + done
      invariant var rest := AcceptFields(reg, v.def, n, i, status, parents, v.log);
                AcceptFields(reg, v.def, n, 0, entry, parents, start) == Outcome(rest.status, done + rest.events)
    {
      ghost var before := v.log;
      ghost var current := status;
      status := AcceptFieldStatement(reg, n, i, status, v);
      ghost var here := v.log[|before|..];
      assert v.log == before + here;
      ghost var later := AcceptFields(reg, v.def, n, i + 1, status, parents, v.log);
      assert AcceptFields(reg, v.def, n, i, current, parents, before) == Outcome(later.status, here + later.events);
      Associative(done, here, later.events);
      Associative(start, done, here);
      done := done + here;
      i := i + 1;
    }
    assert done + [] == done;
  }

  /** The statement generated for field `i` of `n`'s class, run with the current `status`. */
  method AcceptFieldStatement(reg: Registry, n: Node, i: nat, status: Action, v: Visitor) returns (next: Action)
    requires v.reg == reg && WellTyped(reg, n) && i < |n.fields|
    modifies v
    ensures v.parents == old(v.parents)
    ensures var o := AcceptField(reg, v.def, n, i, status, old(v.parents), old(v.log));
            next == o.status && v.log == old(v.log) + o.events
    decreases n, 0, |n.fields| - i
  {
    assert FieldWellTyped(reg, n, i);
    var field := n.fields[i];
    next := status;
    match PlanOf(reg, Decls(reg, n)[i])
    case VisitScalar =>
      if next == Continue && field.value != Null {
        next := AcceptNode(reg, field.value.node, v);
      }
    case Ignore =>
    case _ =>
      next := AcceptListStatement(reg, n, i, status, v);
  }

  /**
   * The loop generated for list field `i`: `for (j = 0; status == CONTINUE
   * && list != null && j < list.size(); j++)`, accepting every element of a
   * traversable-typed list and only the Visitable elements of an Object list.
   */
  method AcceptListStatement(reg: Registry, n: Node, i: nat, status: Action, v: Visitor) returns (next: Action)
    requires v.reg == reg && WellTyped(reg, n) && i < |n.fields|
    requires PlanOf(reg, Decls(reg, n)[i]) in {VisitEach, VisitVisitable}
    modifies v
    ensures v.parents == old(v.parents)
    ensures var o := AcceptItems(reg, v.def, n, i, 0, status, old(v.parents), old(v.log));
            next == o.status && v.log == old(v.log) + o.events
    decreases n, 0, |n.fields| - i, 0
  {
    var field := n.fields[i];
    var each := PlanOf(reg, Decls(reg, n)[i]) == VisitEach;
    ghost var parents := v.parents;
    ghost var start := v.log;
    ghost var done: seq<Event> := [];
    next := status;
    var j := 0;
    while next == Continue && field.List? && j < |field.items|
      invariant field.List? ==> j <= |field.items|
      invariant v.parents == parents
      invariant v.log == start + done
      invariant var rest := AcceptItems(reg, v.def, n, i, j, next, parents, v.log);
                AcceptItems(reg, v.def, n, i, 0, status, parents, start) == Outcome(rest.status, done + rest.events)
      decreases if field.List? then |field.items| - j else 0
    {
      ghost var before := v.log;
      ItemsStep(reg, v.def, n, i, j, parents, before);
      ghost var item := field.items[j];
      ghost var here := if each || item.Visitable? then Accept(reg, v.def, item.node, parents, before) else Outcome(Continue, []);
      next := AcceptItemStatement(reg, n, i, j, v);
      assert next == here.status && v.log == before + here.events;
      ghost var later := AcceptItems(reg, v.def, n, i, j + 1, next, parents, v.log);
      Associative(done, here.events, later.events);
      Associative(start, done, here.events);
      done := done + here.events;
      j := j + 1;
    }
    assert AcceptItems(reg, v.def, n, i, j, next, parents, v.log) == Outcome(next, []);
    assert done + [] == done;
  }

  /** The body of that loop for element `j`, entered with CONTINUE. */
  method AcceptItemStatement(reg: Registry, n: Node, i: nat, j: nat, v: Visitor) returns (next: Action)
    requires v.reg == reg && WellTyped(reg, n) && i < |n.fields|
    requires PlanOf(reg, Decls(reg, n)[i]) in {VisitEach, VisitVisitable}
    requires n.fields[i].List? && j < |n.fields[i].items|
    modifies v
    ensures v.parents == old(v.parents)
    ensures var item := n.fields[i].items[j];
            var o := if PlanOf(reg, Decls(reg, n)[i]) == VisitEach || item.Visitable?
                     then (assert FieldWellTyped(reg, n, i); Accept(reg, v.def, item.node, old(v.parents), old(v.log)))
                     else Outcome(Continue, []);
            next == o.status && v.log == old(v.log) + o.events
    decreases n, 0, |n.fields| - i, 0, 0
  {
    assert FieldWellTyped(reg, n, i);
    var item := n.fields[i].items[j];
    next := Continue;
    if PlanOf(reg, Decls(reg, n)[i]) == VisitEach {
      next := AcceptNode(reg, item.node, v);
    } else if item.Visitable? {
      next := AcceptNode(reg, item.node, v);
    } else {
      assert v.log == old(v.log) + [];
    }
  }

  lemma Associative(a: seq<Event>, b: seq<Event>, c: seq<Event>)
    ensures (a + b) + c == a + (b + c)
  {
  }

  lemma Nest(log: seq<Event>, a: seq<Event>, b: seq<Event>, c: seq<Event>, d: seq<Event>)
    ensures log + a + b + c + d == log + (a + b + c + d)
  {
  }
}
