/**
 * The control rules of the generated `accept`: TERMINATE reaches the root
 * and stops all further visits, every visit inside a node's `accept` sees
 * that node on the parents deque, and the visits follow the tree's preorder.
 */
module Protocol {
  import opened Wrappers
  import opened Schema
  import opened Tree
  import opened Visitors
  import opened Traversal

  // ---------------------------------------------------------------------
  // Sequences of calls

  predicate IsTerminateVisit(e: Event)
  {
    e.Visited? && e.action == Terminate
  }

  /** Some visit among `es` answered TERMINATE. */
  predicate Terminated(es: seq<Event>)
  {
    exists k :: 0 <= k < |es| && IsTerminateVisit(es[k])
  }

  /** No visit follows a visit that answered TERMINATE. */
  predicate Quiet(es: seq<Event>)
  {
    forall i, j :: 0 <= i < j < |es| && IsTerminateVisit(es[i]) ==> !es[j].Visited?
  }

  predicate NoVisits(es: seq<Event>)
  {
    forall k :: 0 <= k < |es| ==> !es[k].Visited?
  }

  lemma TerminatedAppend(a: seq<Event>, b: seq<Event>)
    ensures Terminated(a + b) <==> Terminated(a) || Terminated(b)
  {
    if Terminated(a + b) {
      var k :| 0 <= k < |a + b| && IsTerminateVisit((a + b)[k]);
      if k < |a| {
        assert IsTerminateVisit(a[k]);
      } else {
        assert IsTerminateVisit(b[k - |a|]);
      }
    }
    if Terminated(a) {
      var k :| 0 <= k < |a| && IsTerminateVisit(a[k]);
      assert (a + b)[k] == a[k];
    }
    if Terminated(b) {
      var k :| 0 <= k < |b| && IsTerminateVisit(b[k]);
      assert (a + b)[|a| + k] == b[k];
    }
  }

  lemma QuietAppend(a: seq<Event>, b: seq<Event>)
    requires Quiet(a) && Quiet(b)
    requires Terminated(a) ==> NoVisits(b)
    ensures Quiet(a + b)
  {
    forall i, j | 0 <= i < j < |a + b| && IsTerminateVisit((a + b)[i])
      ensures !(a + b)[j].Visited?
    {
      if i < |a| && j >= |a| {
        assert IsTerminateVisit(a[i]);
        assert (a + b)[j] == b[j - |a|];
      }
    }
  }

  /** The nodes visited, in order. */
  function Visits(es: seq<Event>): seq<Node>
    decreases |es|
  {
    if es == [] then []
    else (if es[0].Visited? then [es[0].node] else []) + Visits(es[1..])
  }

  lemma {:induction false} VisitsAppend(a: seq<Event>, b: seq<Event>)
    ensures Visits(a + b) == Visits(a) + Visits(b)
    decreases |a|
  {
    if a == [] {
      assert a + b == b;
    } else {
      var head := if a[0].Visited? then [a[0].node] else [];
      assert (a + b)[0] == a[0] && (a + b)[1..] == a[1..] + b;
      assert Visits(a + b) == head + Visits(a[1..] + b);
      VisitsAppend(a[1..], b);
      assert head + (Visits(a[1..]) + Visits(b)) == (head + Visits(a[1..])) + Visits(b);
    }
  }

  /** `a` is `b` with some elements left out. */
  predicate Subseq(a: seq<Node>, b: seq<Node>)
    decreases |b|
  {
    a == [] || (b != [] && ((a[0] == b[0] && Subseq(a[1..], b[1..])) || Subseq(a, b[1..])))
  }

  lemma {:induction false} SubseqMembers(a: seq<Node>, b: seq<Node>)
    requires Subseq(a, b)
    ensures forall x :: x in a ==> x in b
    decreases |b|
  {
    if a != [] {
      if a[0] == b[0] && Subseq(a[1..], b[1..]) {
        SubseqMembers(a[1..], b[1..]);
        assert a == [a[0]] + a[1..];
      } else {
        SubseqMembers(a, b[1..]);
      }
    }
  }

  /** A subsequence that starts with `x`, of a sequence with no other `x`, matches that first `x`. */
  lemma SubseqHead(a: seq<Node>, x: Node, t: seq<Node>)
    requires Subseq(a, [x] + t) && a != [] && a[0] == x && x !in t
    ensures Subseq(a[1..], t)
  {
    assert ([x] + t)[1..] == t;
    if !Subseq(a[1..], t) {
      SubseqMembers(a, t);
      assert false;
    }
  }

  lemma {:induction false} SubseqExtend(c: seq<Node>, b: seq<Node>, d: seq<Node>)
    requires Subseq(c, d)
    ensures Subseq(c, b + d)
    decreases |b|
  {
    if b != [] && c != [] {
      assert (b + d)[1..] == b[1..] + d;
      SubseqExtend(c, b[1..], d);
    } else if b == [] {
      assert b + d == d;
    }
  }

  lemma {:induction false} SubseqConcat(a: seq<Node>, b: seq<Node>, c: seq<Node>, d: seq<Node>)
    requires Subseq(a, b) && Subseq(c, d)
    ensures Subseq(a + c, b + d)
    decreases |b|
  {
    if a == [] {
      assert a + c == c;
      SubseqExtend(c, b, d);
    } else {
      assert (a + c)[0] == a[0] && (a + c)[1..] == a[1..] + c;
      assert (b + d)[0] == b[0] && (b + d)[1..] == b[1..] + d;
      if a[0] == b[0] && Subseq(a[1..], b[1..]) {
        SubseqConcat(a[1..], b[1..], c, d);
      } else {
        SubseqConcat(a, b[1..], c, d);
      }
    }
  }

  /** `q` is what lies under the front of the deque `ancestors`. */
  predicate HasSuffix(ancestors: seq<Node>, q: seq<Node>)
  {
    |q| <= |ancestors| && ancestors[|ancestors| - |q|..] == q
  }

  /** Every visit among `es` happens with `q` at the bottom of the deque. */
  predicate Below(es: seq<Event>, q: seq<Node>)
  {
    forall k :: 0 <= k < |es| && es[k].Visited? ==> HasSuffix(es[k].ancestors, q)
  }

  lemma BelowAppend(a: seq<Event>, b: seq<Event>, q: seq<Node>)
    requires Below(a, q) && Below(b, q)
    ensures Below(a + b, q)
  {
    forall k | 0 <= k < |a + b| && (a + b)[k].Visited?
      ensures HasSuffix((a + b)[k].ancestors, q)
    {
      if k >= |a| {
        assert (a + b)[k] == b[k - |a|];
      }
    }
  }

  lemma BelowDeeper(es: seq<Event>, m: Node, q: seq<Node>)
    requires Below(es, [m] + q)
    ensures Below(es, q)
  {
    forall k | 0 <= k < |es| && es[k].Visited?
      ensures HasSuffix(es[k].ancestors, q)
    {
      var anc := es[k].ancestors;
      assert anc[|anc| - |q| - 1..] == [m] + q;
      assert anc[|anc| - |q|..] == anc[|anc| - |q| - 1..][1..];
    }
  }

  // ---------------------------------------------------------------------
  // TERMINATE

  /**
   * `accept` returns TERMINATE exactly when some visit during it answered
   * TERMINATE, and after such a visit the visitor receives no further visit.
   */
  lemma {:induction false} TerminateReachesRoot(reg: Registry, vd: VisitorDef, n: Node, parents: seq<Node>, log: seq<Event>)
    requires WellTyped(reg, n)
    ensures var o := Accept(reg, vd, n, parents, log);
            (o.status == Terminate <==> Terminated(o.events)) && Quiet(o.events)
    decreases n, 2
  {
    var status := Decide(reg, vd, n, parents, log);
    var visit := [Visited(n, parents, status)];
    assert Quiet(visit);
    assert Terminated(visit) <==> status == Terminate by {
      assert IsTerminateVisit(visit[0]) <==> status == Terminate;
    }
    if |Decls(reg, n)| > 0 {
      var f := AcceptFields(reg, vd, n, 0, status, [n] + parents, log + visit + [Pushed(n)]);
      FieldsTerminate(reg, vd, n, 0, status, [n] + parents, log + visit + [Pushed(n)]);
      var open := visit + [Pushed(n)];
      assert !Terminated([Pushed(n)]) && !Terminated([Popped]);
      assert Quiet(open);
      TerminatedAppend(visit, [Pushed(n)]);
      TerminatedAppend(open, f.events);
      TerminatedAppend(open + f.events, [Popped]);
      if status != Continue {
        FieldsIdle(reg, vd, n, 0, status, [n] + parents, log + visit + [Pushed(n)]);
      }
      QuietAppend(open, f.events);
      QuietAppend(open + f.events, [Popped]);
    }
  }

  lemma {:induction false} FieldsTerminate(reg: Registry, vd: VisitorDef, n: Node, i: nat, status: Action, parents: seq<Node>, log: seq<Event>)
    requires WellTyped(reg, n) && i <= |n.fields|
    ensures var o := AcceptFields(reg, vd, n, i, status, parents, log);
            && (o.status == Terminate <==> status == Terminate || Terminated(o.events))
            && Quiet(o.events)
    decreases n, 1, |n.fields| - i
  {
    if i < |n.fields| {
      var here := AcceptField(reg, vd, n, i, status, parents, log);
      var rest := AcceptFields(reg, vd, n, i + 1, here.status, parents, log + here.events);
      FieldTerminate(reg, vd, n, i, status, parents, log);
      FieldsTerminate(reg, vd, n, i + 1, here.status, parents, log + here.events);
      TerminatedAppend(here.events, rest.events);
      if Terminated(here.events) {
        FieldsIdle(reg, vd, n, i + 1, here.status, parents, log + here.events);
      }
      QuietAppend(here.events, rest.events);
    }
  }

  lemma {:induction false} FieldTerminate(reg: Registry, vd: VisitorDef, n: Node, i: nat, status: Action, parents: seq<Node>, log: seq<Event>)
    requires WellTyped(reg, n) && i < |n.fields|
    ensures var o := AcceptField(reg, vd, n, i, status, parents, log);
            && (o.status == Terminate <==> status == Terminate || Terminated(o.events))
            && Quiet(o.events)
            && (Terminated(o.events) ==> status == Continue)
    decreases n, 1, |n.fields| - i, 0
  {
    assert FieldWellTyped(reg, n, i);
    match PlanOf(reg, Decls(reg, n)[i])
    case VisitScalar =>
      if status == Continue && n.fields[i].value.Visitable? {
        TerminateReachesRoot(reg, vd, n.fields[i].value.node, parents, log);
      }
    case Ignore =>
    case _ => ItemsTerminate(reg, vd, n, i, 0, status, parents, log);
  }

  lemma {:induction false} ItemsTerminate(reg: Registry, vd: VisitorDef, n: Node, i: nat, j: nat, status: Action, parents: seq<Node>, log: seq<Event>)
    requires WellTyped(reg, n) && i < |n.fields|
    requires PlanOf(reg, Decls(reg, n)[i]) in {VisitEach, VisitVisitable}
    requires n.fields[i].List? ==> j <= |n.fields[i].items|
    ensures var o := AcceptItems(reg, vd, n, i, j, status, parents, log);
            && (o.status == Terminate <==> status == Terminate || Terminated(o.events))
            && Quiet(o.events)
            && (Terminated(o.events) ==> status == Continue)
    decreases n, 0, |n.fields| - i, if n.fields[i].List? then |n.fields[i].items| - j else 0
  {
    if status == Continue && n.fields[i].List? && j < |n.fields[i].items| {
      ItemsStep(reg, vd, n, i, j, parents, log);
      var item := n.fields[i].items[j];
      var visits := PlanOf(reg, Decls(reg, n)[i]) == VisitEach || item.Visitable?;
      var here := if visits then Accept(reg, vd, item.node, parents, log) else Outcome(status, []);
      var rest := AcceptItems(reg, vd, n, i, j + 1, here.status, parents, log + here.events);
      if visits {
        TerminateReachesRoot(reg, vd, item.node, parents, log);
      }
      ItemsTerminate(reg, vd, n, i, j + 1, here.status, parents, log + here.events);
      TerminatedAppend(here.events, rest.events);
      QuietAppend(here.events, rest.events);
    }
  }

  // ---------------------------------------------------------------------
  // The self-visit and the parents deque

  /**
   * `accept` begins with `visit(this)`, whose answer is the status the
   * fields start from; every later visit during it happens with `this`
   * pushed on top of the deque the call started with.
   */
  lemma {:induction false} SelfVisitFirst(reg: Registry, vd: VisitorDef, n: Node, parents: seq<Node>, log: seq<Event>)
    requires WellTyped(reg, n)
    ensures var o := Accept(reg, vd, n, parents, log);
            && |o.events| > 0
            && o.events[0] == Visited(n, parents, Decide(reg, vd, n, parents, log))
            && Below(o.events[1..], [n] + parents)
    decreases n, 2
  {
    var status := Decide(reg, vd, n, parents, log);
    var visit := [Visited(n, parents, status)];
    var o := Accept(reg, vd, n, parents, log);
    if |Decls(reg, n)| > 0 {
      var f := AcceptFields(reg, vd, n, 0, status, [n] + parents, log + visit + [Pushed(n)]);
      FieldsBelow(reg, vd, n, 0, status, [n] + parents, log + visit + [Pushed(n)]);
      assert o.events[1..] == [Pushed(n)] + f.events + [Popped];
      BelowAppend([Pushed(n)], f.events, [n] + parents);
      BelowAppend([Pushed(n)] + f.events, [Popped], [n] + parents);
    }
  }

  /**
   * `visit(this)` is called exactly once during `accept`: it is the first
   * visit, and no later visit is of this node, since every later visit is of
   * a node strictly inside it.
   */
  lemma SelfVisitOnce(reg: Registry, vd: VisitorDef, n: Node, parents: seq<Node>, log: seq<Event>)
    requires WellTyped(reg, n)
    ensures var vs := Visits(Accept(reg, vd, n, parents, log).events);
            |vs| > 0 && vs[0] == n && n !in vs[1..]
  {
    var es := Accept(reg, vd, n, parents, log).events;
    SelfVisitFirst(reg, vd, n, parents, log);
    assert Visits(es) == [n] + Visits(es[1..]);
    var vs := Visits(es);
    var below := FieldsPreorder(reg, n, 0);
    VisitsFollowPreorder(reg, vd, n, parents, log);
    FieldsPreorderSizes(reg, n, 0);
    assert n !in below;
    SubseqHead(vs, n, below);
    SubseqMembers(vs[1..], below);
  }

  /** Every visit during an `accept` entered with deque `parents` keeps `parents` at the bottom. */
  lemma {:induction false} AcceptBelow(reg: Registry, vd: VisitorDef, n: Node, parents: seq<Node>, log: seq<Event>)
    requires WellTyped(reg, n)
    ensures Below(Accept(reg, vd, n, parents, log).events, parents)
    decreases n, 3
  {
    var o := Accept(reg, vd, n, parents, log);
    SelfVisitFirst(reg, vd, n, parents, log);
    BelowDeeper(o.events[1..], n, parents);
    assert o.events == [o.events[0]] + o.events[1..];
    assert HasSuffix(parents, parents);
    BelowAppend([o.events[0]], o.events[1..], parents);
  }

  lemma {:induction false} FieldsBelow(reg: Registry, vd: VisitorDef, n: Node, i: nat, status: Action, parents: seq<Node>, log: seq<Event>)
    requires WellTyped(reg, n) && i <= |n.fields|
    ensures Below(AcceptFields(reg, vd, n, i, status, parents, log).events, parents)
    decreases n, 1, |n.fields| - i
  {
    if i < |n.fields| {
      var here := AcceptField(reg, vd, n, i, status, parents, log);
      FieldBelow(reg, vd, n, i, status, parents, log);
      FieldsBelow(reg, vd, n, i + 1, here.status, parents, log + here.events);
      BelowAppend(here.events, AcceptFields(reg, vd, n, i + 1, here.status, parents, log + here.events).events, parents);
    }
  }

  lemma {:induction false} FieldBelow(reg: Registry, vd: VisitorDef, n: Node, i: nat, status: Action, parents: seq<Node>, log: seq<Event>)
    requires WellTyped(reg, n) && i < |n.fields|
    ensures Below(AcceptField(reg, vd, n, i, status, parents, log).events, parents)
    decreases n, 1, |n.fields| - i, 0
  {
    assert FieldWellTyped(reg, n, i);
    match PlanOf(reg, Decls(reg, n)[i])
    case VisitScalar =>
      if status == Continue && n.fields[i].value.Visitable? {
        AcceptBelow(reg, vd, n.fields[i].value.node, parents, log);
      }
    case Ignore =>
    case _ => ItemsBelow(reg, vd, n, i, 0, status, parents, log);
  }

  lemma {:induction false} ItemsBelow(reg: Registry, vd: VisitorDef, n: Node, i: nat, j: nat, status: Action, parents: seq<Node>, log: seq<Event>)
    requires WellTyped(reg, n) && i < |n.fields|
    requires PlanOf(reg, Decls(reg, n)[i]) in {VisitEach, VisitVisitable}
    requires n.fields[i].List? ==> j <= |n.fields[i].items|
    ensures Below(AcceptItems(reg, vd, n, i, j, status, parents, log).events, parents)
    decreases n, 0, |n.fields| - i, if n.fields[i].List? then |n.fields[i].items| - j else 0
  {
    if status == Continue && n.fields[i].List? && j < |n.fields[i].items| {
      ItemsStep(reg, vd, n, i, j, parents, log);
      var item := n.fields[i].items[j];
      var visits := PlanOf(reg, Decls(reg, n)[i]) == VisitEach || item.Visitable?;
      var here := if visits then Accept(reg, vd, item.node, parents, log) else Outcome(status, []);
      if visits {
        AcceptBelow(reg, vd, item.node, parents, log);
      }
      ItemsBelow(reg, vd, n, i, j + 1, here.status, parents, log + here.events);
      BelowAppend(here.events, AcceptItems(reg, vd, n, i, j + 1, here.status, parents, log + here.events).events, parents);
    }
  }

  // ---------------------------------------------------------------------
  // Order of the visits

  /**
   * Whatever the visitor answers, the nodes it is asked to visit appear in
   * the tree's preorder over traversable fields, in that order, with
   * pruned subtrees left out: nothing outside those fields is ever visited.
   */
  lemma {:induction false} VisitsFollowPreorder(reg: Registry, vd: VisitorDef, n: Node, parents: seq<Node>, log: seq<Event>)
    requires WellTyped(reg, n)
    ensures Subseq(Visits(Accept(reg, vd, n, parents, log).events), Preorder(reg, n))
    decreases n, 2
  {
    var status := Decide(reg, vd, n, parents, log);
    var visit := [Visited(n, parents, status)];
    var o := Accept(reg, vd, n, parents, log);
    var tail: seq<Node>;
    if |Decls(reg, n)| == 0 {
      assert o.events == visit;
      assert Visits(visit) == [n] by { assert visit[1..] == []; }
      tail := [];
    } else {
      var f := AcceptFields(reg, vd, n, 0, status, [n] + parents, log + visit + [Pushed(n)]);
      FieldsFollowPreorder(reg, vd, n, 0, status, [n] + parents, log + visit + [Pushed(n)]);
      VisitsAppend(visit + [Pushed(n)] + f.events, [Popped]);
      VisitsAppend(visit + [Pushed(n)], f.events);
      VisitsAppend(visit, [Pushed(n)]);
      assert Visits(visit) == [n] by { assert visit[1..] == []; }
      assert Visits([Pushed(n)]) == [] by { assert [Pushed(n)][1..] == []; }
      assert Visits([Popped]) == [] by { assert [Popped][1..] == []; }
      tail := Visits(f.events);
    }
    assert Visits(o.events) == [n] + tail;
    assert Subseq(tail, FieldsPreorder(reg, n, 0)) by {
      if |Decls(reg, n)| == 0 {
        assert tail == [];
      }
    }
    assert ([n] + tail)[1..] == tail;
  }

  lemma {:induction false} FieldsFollowPreorder(reg: Registry, vd: VisitorDef, n: Node, i: nat, status: Action, parents: seq<Node>, log: seq<Event>)
    requires WellTyped(reg, n) && i <= |n.fields|
    ensures Subseq(Visits(AcceptFields(reg, vd, n, i, status, parents, log).events), FieldsPreorder(reg, n, i))
    decreases n, 1, |n.fields| - i
  {
    if i < |n.fields| {
      var here := AcceptField(reg, vd, n, i, status, parents, log);
      var rest := AcceptFields(reg, vd, n, i + 1, here.status, parents, log + here.events);
      assert AcceptFields(reg, vd, n, i, status, parents, log).events == here.events + rest.events;
      assert FieldsPreorder(reg, n, i) == FieldPreorder(reg, n, i) + FieldsPreorder(reg, n, i + 1);
      FieldFollowsPreorder(reg, vd, n, i, status, parents, log);
      FieldsFollowPreorder(reg, vd, n, i + 1, here.status, parents, log + here.events);
      VisitsAppend(here.events, rest.events);
      SubseqConcat(Visits(here.events), FieldPreorder(reg, n, i), Visits(rest.events), FieldsPreorder(reg, n, i + 1));
    }
  }

  lemma {:induction false} FieldFollowsPreorder(reg: Registry, vd: VisitorDef, n: Node, i: nat, status: Action, parents: seq<Node>, log: seq<Event>)
    requires WellTyped(reg, n) && i < |n.fields|
    ensures Subseq(Visits(AcceptField(reg, vd, n, i, status, parents, log).events), FieldPreorder(reg, n, i))
    decreases n, 1, |n.fields| - i, 0
  {
    assert FieldWellTyped(reg, n, i);
    match PlanOf(reg, Decls(reg, n)[i])
    case VisitScalar =>
      if status == Continue && n.fields[i].value.Visitable? {
        VisitsFollowPreorder(reg, vd, n.fields[i].value.node, parents, log);
      }
    case Ignore =>
    case _ => ItemsFollowPreorder(reg, vd, n, i, 0, status, parents, log);
  }

  lemma {:induction false} ItemsFollowPreorder(reg: Registry, vd: VisitorDef, n: Node, i: nat, j: nat, status: Action, parents: seq<Node>, log: seq<Event>)
    requires WellTyped(reg, n) && i < |n.fields|
    requires PlanOf(reg, Decls(reg, n)[i]) in {VisitEach, VisitVisitable}
    requires n.fields[i].List? ==> j <= |n.fields[i].items|
    ensures Subseq(Visits(AcceptItems(reg, vd, n, i, j, status, parents, log).events), ItemsPreorder(reg, n, i, j))
    decreases n, 0, |n.fields| - i, if n.fields[i].List? then |n.fields[i].items| - j else 0
  {
    if status == Continue && n.fields[i].List? && j < |n.fields[i].items| {
      ItemsStep(reg, vd, n, i, j, parents, log);
      var item := n.fields[i].items[j];
      var visits := PlanOf(reg, Decls(reg, n)[i]) == VisitEach || item.Visitable?;
      var here := if visits then Accept(reg, vd, item.node, parents, log) else Outcome(status, []);
      var rest := AcceptItems(reg, vd, n, i, j + 1, here.status, parents, log + here.events);
      var own := if item.Visitable? then Preorder(reg, item.node) else [];
      ItemFollowsPreorder(reg, vd, n, i, j, parents, log);
      assert ItemsPreorder(reg, n, i, j) == own + ItemsPreorder(reg, n, i, j + 1);
      ItemsFollowPreorder(reg, vd, n, i, j + 1, here.status, parents, log + here.events);
      VisitsAppend(here.events, rest.events);
      SubseqConcat(Visits(here.events), own, Visits(rest.events), ItemsPreorder(reg, n, i, j + 1));
    }
  }

  /** One element of a list field: what its accept visits follows its own preorder. */
  lemma {:induction false} ItemFollowsPreorder(reg: Registry, vd: VisitorDef, n: Node, i: nat, j: nat, parents: seq<Node>, log: seq<Event>)
    requires WellTyped(reg, n) && i < |n.fields|
    requires PlanOf(reg, Decls(reg, n)[i]) in {VisitEach, VisitVisitable}
    requires n.fields[i].List? && j < |n.fields[i].items|
    ensures var item := n.fields[i].items[j];
            PlanOf(reg, Decls(reg, n)[i]) == VisitEach || item.Visitable? ==> item.Visitable? && WellTyped(reg, item.node)
    ensures var item := n.fields[i].items[j];
            var here := if PlanOf(reg, Decls(reg, n)[i]) == VisitEach || item.Visitable?
                        then Accept(reg, vd, item.node, parents, log) else Outcome(Continue, []);
            Subseq(Visits(here.events), if item.Visitable? then Preorder(reg, item.node) else [])
    decreases n, 0, |n.fields| - i, |n.fields[i].items| - j, 0
  {
    assert FieldWellTyped(reg, n, i);
    var item := n.fields[i].items[j];
    if PlanOf(reg, Decls(reg, n)[i]) == VisitEach || item.Visitable? {
      VisitsFollowPreorder(reg, vd, item.node, parents, log);
    } else {
      assert Visits([]) == [];
    }
  }

  /** The visitor answers CONTINUE to every node whatever the deque and its history. */
  ghost predicate AlwaysContinues(reg: Registry, vd: VisitorDef)
  {
    forall m, ancestors, log :: Decide(reg, vd, m, ancestors, log) == Continue
  }

  /**
   * A visitor that always answers CONTINUE visits exactly the preorder of
   * the tree over traversable fields, and `accept` returns CONTINUE.
   */
  lemma {:induction false} ContinueVisitsPreorder(reg: Registry, vd: VisitorDef, n: Node, parents: seq<Node>, log: seq<Event>)
    requires WellTyped(reg, n) && AlwaysContinues(reg, vd)
    ensures var o := Accept(reg, vd, n, parents, log);
            o.status == Continue && Visits(o.events) == Preorder(reg, n)
    decreases n, 2
  {
    var status := Decide(reg, vd, n, parents, log);
    var visit := [Visited(n, parents, status)];
    assert Visits(visit) == [n] by { assert visit[1..] == []; }
    if |Decls(reg, n)| > 0 {
      var f := AcceptFields(reg, vd, n, 0, status, [n] + parents, log + visit + [Pushed(n)]);
      FieldsContinue(reg, vd, n, 0, [n] + parents, log + visit + [Pushed(n)]);
      VisitsAppend(visit + [Pushed(n)] + f.events, [Popped]);
      VisitsAppend(visit + [Pushed(n)], f.events);
      VisitsAppend(visit, [Pushed(n)]);
      assert Visits([Pushed(n)]) == [] by { assert [Pushed(n)][1..] == []; }
      assert Visits([Popped]) == [] by { assert [Popped][1..] == []; }
    }
  }

  lemma {:induction false} FieldsContinue(reg: Registry, vd: VisitorDef, n: Node, i: nat, parents: seq<Node>, log: seq<Event>)
    requires WellTyped(reg, n) && i <= |n.fields| && AlwaysContinues(reg, vd)
    ensures var o := AcceptFields(reg, vd, n, i, Continue, parents, log);
            o.status == Continue && Visits(o.events) == FieldsPreorder(reg, n, i)
    decreases n, 1, |n.fields| - i
  {
    if i < |n.fields| {
      var here := AcceptField(reg, vd, n, i, Continue, parents, log);
      var rest := AcceptFields(reg, vd, n, i + 1, here.status, parents, log + here.events);
      FieldContinue(reg, vd, n, i, parents, log);
      FieldsContinue(reg, vd, n, i + 1, parents, log + here.events);
      VisitsAppend(here.events, rest.events);
    }
  }

  lemma {:induction false} FieldContinue(reg: Registry, vd: VisitorDef, n: Node, i: nat, parents: seq<Node>, log: seq<Event>)
    requires WellTyped(reg, n) && i < |n.fields| && AlwaysContinues(reg, vd)
    ensures var o := AcceptField(reg, vd, n, i, Continue, parents, log);
            o.status == Continue && Visits(o.events) == FieldPreorder(reg, n, i)
    decreases n, 1, |n.fields| - i, 0
  {
    assert FieldWellTyped(reg, n, i);
    match PlanOf(reg, Decls(reg, n)[i])
    case VisitScalar =>
      if n.fields[i].value.Visitable? {
        ContinueVisitsPreorder(reg, vd, n.fields[i].value.node, parents, log);
      }
    case Ignore =>
    case _ => ItemsContinue(reg, vd, n, i, 0, parents, log);
  }

  lemma {:induction false} ItemsContinue(reg: Registry, vd: VisitorDef, n: Node, i: nat, j: nat, parents: seq<Node>, log: seq<Event>)
    requires WellTyped(reg, n) && i < |n.fields| && AlwaysContinues(reg, vd)
    requires PlanOf(reg, Decls(reg, n)[i]) in {VisitEach, VisitVisitable}
    requires n.fields[i].List? ==> j <= |n.fields[i].items|
    ensures var o := AcceptItems(reg, vd, n, i, j, Continue, parents, log);
            o.status == Continue && Visits(o.events) == ItemsPreorder(reg, n, i, j)
    decreases n, 0, |n.fields| - i, if n.fields[i].List? then |n.fields[i].items| - j else 0
  {
    if n.fields[i].List? && j < |n.fields[i].items| {
      ItemsStep(reg, vd, n, i, j, parents, log);
      var item := n.fields[i].items[j];
      var visits := PlanOf(reg, Decls(reg, n)[i]) == VisitEach || item.Visitable?;
      var here := if visits then Accept(reg, vd, item.node, parents, log) else Outcome(Continue, []);
      var rest := AcceptItems(reg, vd, n, i, j + 1, here.status, parents, log + here.events);
      if visits {
        ContinueVisitsPreorder(reg, vd, item.node, parents, log);
      }
      ItemsContinue(reg, vd, n, i, j + 1, parents, log + here.events);
      VisitsAppend(here.events, rest.events);
    }
  }

  /**
   * The generated base visitors themselves (AbstractVisitor and
   * AbstractSimpleVisitor with nothing overridden) visit every reachable
   * node, in preorder, with every push matched by a pop, and report CONTINUE.
   */
  lemma BaseVisitorsVisitPreorder(reg: Registry, base: Base, n: Node, parents: seq<Node>, log: seq<Event>)
    requires WellTyped(reg, n)
    ensures var o := Accept(reg, VisitorDef(base, map[]), n, parents, log);
            && o.status == Continue
            && Visits(o.events) == Preorder(reg, n)
            && Replay(parents, o.events) == Some(parents)
  {
    var vd := VisitorDef(base, map[]);
    forall m, ancestors, l ensures Decide(reg, vd, m, ancestors, l) == Continue {
      NoOverridesContinue(reg, base, m, ancestors, l);
    }
    ContinueVisitsPreorder(reg, vd, n, parents, log);
    AcceptBalanced(reg, vd, n, parents, log);
  }
}
