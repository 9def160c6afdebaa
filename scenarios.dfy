/**
 * Concrete traversals of a small schema: R declares a scalar field `a` of
 * class X and a list `items` of class Y; X declares a scalar `z` of class Z;
 * Y declares an `extension` list of java.lang.Object; Z declares nothing.
 */
module Scenarios {
  import opened Wrappers
  import opened Schema
  import opened Tree
  import opened Visitors
  import opened Traversal
  import opened Protocol

  const schema: Registry := [
    ClassInfo("R", PMML_OBJECT, [FieldDecl("a", "X", false), FieldDecl("items", "Y", true)]),
    ClassInfo("X", PMML_OBJECT, [FieldDecl("z", "Z", false)]),
    ClassInfo("Y", PMML_OBJECT, [FieldDecl("extension", OBJECT, true)]),
    ClassInfo("Z", PMML_OBJECT, [])
  ]

  const z: Node := Node("Z", [])
  const x: Node := Node("X", [Single(Visitable(z))])
  const y1: Node := Node("Y", [NullList])
  const y2: Node := Node("Y", [List([Other, Null])])
  const r: Node := Node("R", [Single(Visitable(x)), List([Visitable(y1), Visitable(y2)])])

  lemma DistinctNames()
    ensures "R" != "X" && "R" != "Y" && "R" != "Z" && "X" != "Y" && "X" != "Z" && "Y" != "Z"
    ensures OBJECT != PMML_OBJECT
  {
    assert "R"[0] != "X"[0] && "R"[0] != "Y"[0] && "R"[0] != "Z"[0];
    assert "X"[0] != "Y"[0] && "X"[0] != "Z"[0] && "Y"[0] != "Z"[0];
    assert OBJECT[0] != PMML_OBJECT[0];
  }

  lemma FindR()
    ensures Find(schema, "R") == Some(schema[0])
  {
  }

  lemma FindX()
    ensures Find(schema, "X") == Some(schema[1])
  {
    assert "R"[0] != "X"[0];
    assert schema[1..][0] == schema[1];
  }

  lemma FindY()
    ensures Find(schema, "Y") == Some(schema[2])
  {
    assert "R"[0] != "Y"[0] && "X"[0] != "Y"[0];
    assert schema[1..][0] == schema[1] && schema[1..][1..] == schema[2..] && schema[2..][0] == schema[2];
  }

  lemma FindZ()
    ensures Find(schema, "Z") == Some(schema[3])
  {
    assert "R"[0] != "Z"[0] && "X"[0] != "Z"[0] && "Y"[0] != "Z"[0];
    assert schema[1..][0] == schema[1] && schema[1..][1..] == schema[2..] && schema[2..][0] == schema[2];
    assert schema[2..][1..] == schema[3..] && schema[3..][0] == schema[3];
  }

  lemma FindFacts()
    ensures Find(schema, "R") == Some(schema[0]) && Find(schema, "X") == Some(schema[1])
    ensures Find(schema, "Y") == Some(schema[2]) && Find(schema, "Z") == Some(schema[3])
  {
    FindR();
    FindX();
    FindY();
    FindZ();
  }

  lemma TraversableFacts()
    ensures "X" in Traversable(schema) && "Y" in Traversable(schema) && "Z" in Traversable(schema)
    ensures OBJECT !in Traversable(schema)
  {
    assert schema[1] in schema && schema[2] in schema && schema[3] in schema;
    assert OBJECT != PMML_OBJECT by { DistinctNames(); }
    forall c | c in schema ensures c.name != OBJECT && c.superName != OBJECT {
      assert OBJECT[0] == 'j';
    }
  }

  lemma SchemaFacts()
    ensures Find(schema, "R") == Some(schema[0]) && Find(schema, "X") == Some(schema[1])
    ensures Find(schema, "Y") == Some(schema[2]) && Find(schema, "Z") == Some(schema[3])
    ensures "X" in Traversable(schema) && "Y" in Traversable(schema) && "Z" in Traversable(schema)
    ensures OBJECT !in Traversable(schema)
  {
    FindFacts();
    TraversableFacts();
  }

  lemma Plans()
    ensures PlanOf(schema, schema[0].fields[0]) == VisitScalar
    ensures PlanOf(schema, schema[0].fields[1]) == VisitEach
    ensures PlanOf(schema, schema[1].fields[0]) == VisitScalar
    ensures PlanOf(schema, schema[2].fields[0]) == VisitVisitable
  {
    SchemaFacts();
  }

  lemma ZWellTyped()
    ensures WellTyped(schema, z) && Decls(schema, z) == []
  {
    assert Registered(schema, z.typeName) && Decls(schema, z) == [] by { SchemaFacts(); }
  }

  /** A field holding one traversable child is well typed when the child is. */
  lemma ScalarFieldWellTyped(reg: Registry, n: Node, i: nat, c: Node)
    requires Registered(reg, n.typeName) && i < |n.fields| == |Decls(reg, n)|
    requires !Decls(reg, n)[i].isCollection && PlanOf(reg, Decls(reg, n)[i]) == VisitScalar
    requires n.fields[i] == Single(Visitable(c)) && WellTyped(reg, c)
    ensures FieldWellTyped(reg, n, i)
  {
  }

  /** A traversable-typed list of two children is well typed when both are. */
  lemma PairFieldWellTyped(reg: Registry, n: Node, i: nat, c1: Node, c2: Node)
    requires Registered(reg, n.typeName) && i < |n.fields| == |Decls(reg, n)|
    requires Decls(reg, n)[i].isCollection && PlanOf(reg, Decls(reg, n)[i]) == VisitEach
    requires n.fields[i] == List([Visitable(c1), Visitable(c2)]) && WellTyped(reg, c1) && WellTyped(reg, c2)
    ensures FieldWellTyped(reg, n, i)
  {
    var items := n.fields[i].items;
    assert forall j :: 0 <= j < |items| ==> items[j] == Visitable(c1) || items[j] == Visitable(c2);
  }

  /** A node whose only field is an Object list without Visitable objects is well typed. */
  lemma ForeignListWellTyped(reg: Registry, n: Node)
    requires Registered(reg, n.typeName) && |n.fields| == |Decls(reg, n)| == 1
    requires Decls(reg, n)[0].isCollection && PlanOf(reg, Decls(reg, n)[0]) == VisitVisitable
    requires n.fields[0] == NullList || n.fields[0] == List([Other, Null])
    ensures WellTyped(reg, n)
  {
    assert FieldWellTyped(reg, n, 0);
  }

  lemma Y1WellTyped()
    ensures WellTyped(schema, y1)
    ensures Decls(schema, y1) == schema[2].fields && PlanOf(schema, Decls(schema, y1)[0]) == VisitVisitable
  {
    assert Registered(schema, y1.typeName) && Decls(schema, y1) == schema[2].fields by { SchemaFacts(); }
    assert PlanOf(schema, Decls(schema, y1)[0]) == VisitVisitable by { Plans(); }
    ForeignListWellTyped(schema, y1);
  }

  lemma Y2WellTyped()
    ensures WellTyped(schema, y2)
    ensures Decls(schema, y2) == schema[2].fields && PlanOf(schema, Decls(schema, y2)[0]) == VisitVisitable
  {
    assert Registered(schema, y2.typeName) && Decls(schema, y2) == schema[2].fields by { SchemaFacts(); }
    assert PlanOf(schema, Decls(schema, y2)[0]) == VisitVisitable by { Plans(); }
    ForeignListWellTyped(schema, y2);
  }

  lemma XWellTyped()
    ensures WellTyped(schema, x)
    ensures Decls(schema, x) == schema[1].fields && PlanOf(schema, Decls(schema, x)[0]) == VisitScalar
  {
    ZWellTyped();
    assert Registered(schema, x.typeName) && Decls(schema, x) == schema[1].fields by { SchemaFacts(); }
    assert PlanOf(schema, Decls(schema, x)[0]) == VisitScalar by { Plans(); }
    ScalarFieldWellTyped(schema, x, 0, z);
  }

  lemma RFieldsWellTyped()
    ensures Registered(schema, r.typeName) && Decls(schema, r) == schema[0].fields
    ensures PlanOf(schema, Decls(schema, r)[0]) == VisitScalar && PlanOf(schema, Decls(schema, r)[1]) == VisitEach
    ensures FieldWellTyped(schema, r, 0)
  {
    assert Registered(schema, r.typeName) && Decls(schema, r) == schema[0].fields by { SchemaFacts(); }
    assert PlanOf(schema, Decls(schema, r)[0]) == VisitScalar && PlanOf(schema, Decls(schema, r)[1]) == VisitEach by { Plans(); }
    assert WellTyped(schema, x) by { XWellTyped(); }
    ScalarFieldWellTyped(schema, r, 0, x);
  }

  lemma RItemsWellTyped()
    ensures Registered(schema, r.typeName) && |r.fields| == |Decls(schema, r)|
    ensures FieldWellTyped(schema, r, 1)
  {
    assert Registered(schema, r.typeName) && Decls(schema, r) == schema[0].fields by { SchemaFacts(); }
    assert PlanOf(schema, Decls(schema, r)[1]) == VisitEach by { Plans(); }
    assert WellTyped(schema, y1) by { Y1WellTyped(); }
    assert WellTyped(schema, y2) by { Y2WellTyped(); }
    PairFieldWellTyped(schema, r, 1, y1, y2);
  }

  lemma RWellTyped()
    ensures WellTyped(schema, r)
    ensures Decls(schema, r) == schema[0].fields
    ensures PlanOf(schema, Decls(schema, r)[0]) == VisitScalar && PlanOf(schema, Decls(schema, r)[1]) == VisitEach
  {
    RFieldsWellTyped();
    RItemsWellTyped();
    assert forall i :: 0 <= i < |r.fields| ==> FieldWellTyped(schema, r, i) by {
      forall i | 0 <= i < |r.fields| ensures FieldWellTyped(schema, r, i) {
        assert i == 0 || i == 1;
      }
    }
  }

  // ---------------------------------------------------------------------
  // accept of each node, for any visitor

  /** A class that declares no field: the self-visit only, and no push or pop. */
  lemma AcceptLeaf(reg: Registry, vd: VisitorDef, n: Node, parents: seq<Node>, log: seq<Event>)
    requires WellTyped(reg, n) && Decls(reg, n) == []
    ensures var s := Decide(reg, vd, n, parents, log);
            Accept(reg, vd, n, parents, log) == Outcome(Normalise(s), [Visited(n, parents, s)])
  {
  }

  /**
   * A class that declares one Object list holding no Visitable object (the
   * list is null, or holds a foreign object and a null): it is pushed and
   * popped, and nothing below it is visited.
   */
  lemma AcceptForeignList(reg: Registry, vd: VisitorDef, n: Node, parents: seq<Node>, log: seq<Event>)
    requires WellTyped(reg, n) && |n.fields| == 1 && PlanOf(reg, Decls(reg, n)[0]) == VisitVisitable
    requires n.fields[0] == NullList || n.fields[0] == List([Other, Null])
    ensures var s := Decide(reg, vd, n, parents, log);
            Accept(reg, vd, n, parents, log) == Outcome(Normalise(s), [Visited(n, parents, s), Pushed(n), Popped])
  {
    var s := Decide(reg, vd, n, parents, log);
    var l := log + [Visited(n, parents, s)] + [Pushed(n)];
    assert l + [] == l;
    if n.fields[0].List? {
      assert AcceptItems(reg, vd, n, 0, 2, s, [n] + parents, l) == Outcome(s, []);
      assert AcceptItems(reg, vd, n, 0, 1, s, [n] + parents, l) == Outcome(s, []);
    }
    assert AcceptItems(reg, vd, n, 0, 0, s, [n] + parents, l) == Outcome(s, []);
    assert AcceptField(reg, vd, n, 0, s, [n] + parents, l) == Outcome(s, []);
    assert AcceptFields(reg, vd, n, 0, s, [n] + parents, l) == Outcome(s, []);
  }

  /** A class whose one declared field holds a childless traversable object, visited when the owner answers CONTINUE. */
  lemma AcceptScalarLeaf(reg: Registry, vd: VisitorDef, n: Node, c: Node, parents: seq<Node>, log: seq<Event>)
    requires WellTyped(reg, n) && |n.fields| == 1 && n.fields[0] == Single(Visitable(c))
    requires PlanOf(reg, Decls(reg, n)[0]) == VisitScalar && WellTyped(reg, c) && Decls(reg, c) == []
    requires Decide(reg, vd, n, parents, log) == Continue
    ensures var l := log + [Visited(n, parents, Continue)] + [Pushed(n)];
            var t := Decide(reg, vd, c, [n] + parents, l);
            Accept(reg, vd, n, parents, log)
              == Outcome(Normalise(t), [Visited(n, parents, Continue), Pushed(n), Visited(c, [n] + parents, t), Popped])
  {
    assert FieldWellTyped(reg, n, 0);
    var l := log + [Visited(n, parents, Continue)] + [Pushed(n)];
    var here := Accept(reg, vd, c, [n] + parents, l);
    AcceptLeaf(reg, vd, c, [n] + parents, l);
    assert AcceptField(reg, vd, n, 0, Continue, [n] + parents, l) == here;
    assert AcceptFields(reg, vd, n, 1, here.status, [n] + parents, l + here.events) == Outcome(here.status, []);
    assert here.events + [] == here.events;
  }

  /** Y declares a field, so y1 is pushed and popped even though its list is null. */
  lemma AcceptY1(vd: VisitorDef, parents: seq<Node>, log: seq<Event>)
    ensures WellTyped(schema, y1)
    ensures var s := Decide(schema, vd, y1, parents, log);
            Accept(schema, vd, y1, parents, log) == Outcome(Normalise(s), [Visited(y1, parents, s), Pushed(y1), Popped])
  {
    Y1WellTyped();
    AcceptForeignList(schema, vd, y1, parents, log);
  }

  /** The Object list of y2 holds a non-Visitable object and a null: both are passed over. */
  lemma AcceptY2(vd: VisitorDef, parents: seq<Node>, log: seq<Event>)
    ensures WellTyped(schema, y2)
    ensures var s := Decide(schema, vd, y2, parents, log);
            Accept(schema, vd, y2, parents, log) == Outcome(Normalise(s), [Visited(y2, parents, s), Pushed(y2), Popped])
  {
    Y2WellTyped();
    AcceptForeignList(schema, vd, y2, parents, log);
  }

  /** X answering CONTINUE descends into z with itself on top of the deque. */
  lemma AcceptX(vd: VisitorDef, parents: seq<Node>, log: seq<Event>)
    requires Decide(schema, vd, x, parents, log) == Continue
    ensures WellTyped(schema, x)
    ensures var l := log + [Visited(x, parents, Continue)] + [Pushed(x)];
            var t := Decide(schema, vd, z, [x] + parents, l);
            Accept(schema, vd, x, parents, log)
              == Outcome(Normalise(t), [Visited(x, parents, Continue), Pushed(x), Visited(z, [x] + parents, t), Popped])
  {
    XWellTyped();
    ZWellTyped();
    AcceptScalarLeaf(schema, vd, x, z, parents, log);
  }

  /** The loop over a traversable-typed list of two children. */
  lemma AcceptPair(reg: Registry, vd: VisitorDef, n: Node, c1: Node, c2: Node, log: seq<Event>)
    requires WellTyped(reg, n) && |n.fields| == 2
    requires n.fields[1] == List([Visitable(c1), Visitable(c2)]) && PlanOf(reg, Decls(reg, n)[1]) == VisitEach
    ensures WellTyped(reg, c1) && WellTyped(reg, c2)
    ensures var b := Accept(reg, vd, c1, [n], log);
            var c := Accept(reg, vd, c2, [n], log + b.events);
            AcceptItems(reg, vd, n, 1, 0, Continue, [n], log)
              == if b.status != Continue then b else Outcome(c.status, b.events + c.events)
  {
    assert FieldWellTyped(reg, n, 1);
    assert n.fields[1].items[0].node == c1 && n.fields[1].items[1].node == c2;
    var b := Accept(reg, vd, c1, [n], log);
    var l3 := log + b.events;
    var c := Accept(reg, vd, c2, [n], l3);
    var rest := AcceptItems(reg, vd, n, 1, 1, b.status, [n], l3);
    assert AcceptItems(reg, vd, n, 1, 0, Continue, [n], log) == Outcome(rest.status, b.events + rest.events);
    if b.status == Continue {
      assert AcceptItems(reg, vd, n, 1, 2, c.status, [n], l3 + c.events) == Outcome(c.status, []);
      assert rest == c;
    } else {
      assert rest == Outcome(b.status, []);
    }
  }

  /** The first field statement of a node whose field 0 holds one traversable child. */
  lemma AcceptFirstScalar(reg: Registry, vd: VisitorDef, n: Node, c0: Node, log: seq<Event>)
    requires WellTyped(reg, n) && |n.fields| == 2
    requires n.fields[0] == Single(Visitable(c0)) && PlanOf(reg, Decls(reg, n)[0]) == VisitScalar
    ensures WellTyped(reg, c0)
    ensures var a := Accept(reg, vd, c0, [n], log);
            var rest := AcceptFields(reg, vd, n, 1, a.status, [n], log + a.events);
            AcceptFields(reg, vd, n, 0, Continue, [n], log) == Outcome(rest.status, a.events + rest.events)
  {
    assert FieldWellTyped(reg, n, 0);
    assert AcceptField(reg, vd, n, 0, Continue, [n], log) == Accept(reg, vd, c0, [n], log);
  }

  /** The last field statement of a two-field node whose field 1 is a traversable-typed list. */
  lemma AcceptLastList(reg: Registry, vd: VisitorDef, n: Node, status: Action, log: seq<Event>)
    requires WellTyped(reg, n) && |n.fields| == 2 && PlanOf(reg, Decls(reg, n)[1]) == VisitEach
    ensures AcceptFields(reg, vd, n, 1, status, [n], log) == AcceptItems(reg, vd, n, 1, 0, status, [n], log)
  {
    var items := AcceptItems(reg, vd, n, 1, 0, status, [n], log);
    assert AcceptField(reg, vd, n, 1, status, [n], log) == items;
    assert AcceptFields(reg, vd, n, 2, items.status, [n], log + items.events) == Outcome(items.status, []);
    assert items.events + [] == items.events;
  }

  /** The field statements of any node shaped like R: a scalar child, then a list of two children. */
  lemma AcceptScalarThenPair(reg: Registry, vd: VisitorDef, n: Node, c0: Node, c1: Node, c2: Node, log: seq<Event>)
    requires WellTyped(reg, n)
    requires n.fields == [Single(Visitable(c0)), List([Visitable(c1), Visitable(c2)])]
    requires PlanOf(reg, Decls(reg, n)[0]) == VisitScalar && PlanOf(reg, Decls(reg, n)[1]) == VisitEach
    ensures WellTyped(reg, c0) && WellTyped(reg, c1) && WellTyped(reg, c2)
    ensures var a := Accept(reg, vd, c0, [n], log);
            var b := Accept(reg, vd, c1, [n], log + a.events);
            var c := Accept(reg, vd, c2, [n], log + a.events + b.events);
            AcceptFields(reg, vd, n, 0, Continue, [n], log)
              == if a.status != Continue then a
                 else if b.status != Continue then Outcome(b.status, a.events + b.events)
                 else Outcome(c.status, a.events + b.events + c.events)
  {
    AcceptFirstScalar(reg, vd, n, c0, log);
    var a := Accept(reg, vd, c0, [n], log);
    var l2 := log + a.events;
    AcceptLastList(reg, vd, n, a.status, l2);
    AcceptPair(reg, vd, n, c1, c2, l2);
    var items := AcceptItems(reg, vd, n, 1, 0, a.status, [n], l2);
    assert AcceptFields(reg, vd, n, 0, Continue, [n], log) == Outcome(items.status, a.events + items.events);
    if a.status != Continue {
      assert items == Outcome(a.status, []);
      assert a.events + [] == a.events;
    } else {
      var b := Accept(reg, vd, c1, [n], l2);
      var c := Accept(reg, vd, c2, [n], l2 + b.events);
      if b.status == Continue {
        assert items == Outcome(c.status, b.events + c.events);
        assert a.events + (b.events + c.events) == a.events + b.events + c.events;
      } else {
        assert items == b;
      }
    }
  }

  /** R's field statements: x, then the list [y1, y2], each only while the status is CONTINUE. */
  lemma AcceptRFields(vd: VisitorDef, log: seq<Event>)
    ensures WellTyped(schema, r)
    ensures WellTyped(schema, x) && WellTyped(schema, y1) && WellTyped(schema, y2)
    ensures var a := Accept(schema, vd, x, [r], log);
            var b := Accept(schema, vd, y1, [r], log + a.events);
            var c := Accept(schema, vd, y2, [r], log + a.events + b.events);
            AcceptFields(schema, vd, r, 0, Continue, [r], log)
              == if a.status != Continue then a
                 else if b.status != Continue then Outcome(b.status, a.events + b.events)
                 else Outcome(c.status, a.events + b.events + c.events)
  {
    RWellTyped();
    AcceptScalarThenPair(schema, vd, r, x, y1, y2, log);
  }

  /** Regroups the event list of a node with fields around its children's event lists. */
  lemma Regroup(visit: Event, push: Event, a: seq<Event>, b: seq<Event>, c: seq<Event>, pop: Event)
    ensures [visit] + [push] + (a + b + c) + [pop] == [visit, push] + a + b + c + [pop]
  {
  }

  lemma RegroupTwo(visit: Event, push: Event, a: seq<Event>, b: seq<Event>, pop: Event)
    ensures [visit] + [push] + (a + b) + [pop] == [visit, push] + a + b + [pop]
  {
  }

  /** An AbstractVisitor whose visit(Y) answers TERMINATE at the first Y it meets. */
  function StopAtFirstY(m: Node, ancestors: seq<Node>, log: seq<Event>): Action
  {
    if m == y1 then Terminate else Continue
  }

  /** An AbstractSimpleVisitor that overrides only visit(PMMLObject) and skips every X. */
  function SkipX(m: Node, ancestors: seq<Node>, log: seq<Event>): Action
  {
    if m.typeName == "X" then Skip else Continue
  }

  /** An AbstractSimpleVisitor that overrides only visit(PMMLObject) sends every visit there. */
  lemma OnlyRootOverridden(reg: Registry, h: Handler, n: Node, ancestors: seq<Node>, log: seq<Event>)
    ensures Decide(reg, VisitorDef(Simple, map[PMML_OBJECT := h]), n, ancestors, log) == h(n, ancestors, log)
  {
    var overrides := map[PMML_OBJECT := h];
    assert forall k :: k in overrides ==> k == PMML_OBJECT;
  }

  /** An AbstractVisitor that overrides one visit(T) answers CONTINUE for every other class. */
  lemma FullDecision(reg: Registry, t: string, h: Handler, n: Node, ancestors: seq<Node>, log: seq<Event>)
    ensures Decide(reg, VisitorDef(Full, map[t := h]), n, ancestors, log)
         == if n.typeName == t then h(n, ancestors, log) else Continue
  {
  }

  // ---------------------------------------------------------------------
  // Whole traversals from a fresh visitor

  /**
   * An AbstractVisitor that overrides nothing visits R, X, Z, y1, y2 in that
   * order; X, y1 and y2 see the deque [R], Z sees [X, R]; the result is CONTINUE.
   */
  lemma ScenarioAllContinue()
    ensures WellTyped(schema, r)
    ensures Accept(schema, plain, r, [], [])
         == Outcome(Continue, [Visited(r, [], Continue), Pushed(r)]
                                + [Visited(x, [r], Continue), Pushed(x), Visited(z, [x, r], Continue), Popped]
                                + [Visited(y1, [r], Continue), Pushed(y1), Popped]
                                + [Visited(y2, [r], Continue), Pushed(y2), Popped]
                                + [Popped])
  {
    var l1 := [] + [Visited(r, [], Continue)] + [Pushed(r)];
    AcceptRFields(plain, l1);
    PlainVisitsX(l1);
    var a := Accept(schema, plain, x, [r], l1);
    PlainVisitsY1(l1 + a.events);
    var b := Accept(schema, plain, y1, [r], l1 + a.events);
    PlainVisitsY2(l1 + a.events + b.events);
    var c := Accept(schema, plain, y2, [r], l1 + a.events + b.events);
    var f := AcceptFields(schema, plain, r, 0, Continue, [r], l1);
    assert f == Outcome(Continue, a.events + b.events + c.events);
    NoOverridesContinue(schema, Full, r, [], []);
    AcceptR(plain, f);
    Regroup(Visited(r, [], Continue), Pushed(r), a.events, b.events, c.events, Popped);
  }

  /** R's own accept: its self-visit, its push, its field statements and its pop, when visit(R) answers CONTINUE. */
  lemma AcceptR(vd: VisitorDef, f: Outcome)
    requires Decide(schema, vd, r, [], []) == Continue
    requires WellTyped(schema, r)
    requires f == AcceptFields(schema, vd, r, 0, Continue, [r], [] + [Visited(r, [], Continue)] + [Pushed(r)])
    ensures Accept(schema, vd, r, [], []) == Outcome(Normalise(f.status), [Visited(r, [], Continue)] + [Pushed(r)] + f.events + [Popped])
  {
    assert |Decls(schema, r)| == 2 by { RWellTyped(); }
    assert [r] + [] == [r];
  }

  /** The visitor of ScenarioAllContinue: an AbstractVisitor overriding nothing. */
  const plain: VisitorDef := VisitorDef(Full, map[])

  lemma PlainVisitsX(log: seq<Event>)
    ensures WellTyped(schema, x)
    ensures Accept(schema, plain, x, [r], log)
         == Outcome(Continue, [Visited(x, [r], Continue), Pushed(x), Visited(z, [x, r], Continue), Popped])
  {
    NoOverridesContinue(schema, Full, x, [r], log);
    NoOverridesContinue(schema, Full, z, [x] + [r], log + [Visited(x, [r], Continue)] + [Pushed(x)]);
    AcceptX(plain, [r], log);
    assert [x] + [r] == [x, r];
  }

  lemma PlainVisitsY1(log: seq<Event>)
    ensures WellTyped(schema, y1)
    ensures Accept(schema, plain, y1, [r], log) == Outcome(Continue, [Visited(y1, [r], Continue), Pushed(y1), Popped])
  {
    NoOverridesContinue(schema, Full, y1, [r], log);
    AcceptY1(plain, [r], log);
  }

  lemma PlainVisitsY2(log: seq<Event>)
    ensures WellTyped(schema, y2)
    ensures Accept(schema, plain, y2, [r], log) == Outcome(Continue, [Visited(y2, [r], Continue), Pushed(y2), Popped])
  {
    NoOverridesContinue(schema, Full, y2, [r], log);
    AcceptY2(plain, [r], log);
  }

  /** The visitor of ScenarioTerminate: an AbstractVisitor overriding visit(Y) only. */
  const stopAtY: VisitorDef := VisitorDef(Full, map["Y" := StopAtFirstY])

  /** The visitor of ScenarioSkip: an AbstractSimpleVisitor overriding visit(PMMLObject) only. */
  const skipX: VisitorDef := VisitorDef(Simple, map[PMML_OBJECT := SkipX])

  lemma StopAtYVisitsX(log: seq<Event>)
    ensures WellTyped(schema, x)
    ensures Accept(schema, stopAtY, x, [r], log)
         == Outcome(Continue, [Visited(x, [r], Continue), Pushed(x), Visited(z, [x, r], Continue), Popped])
  {
    DistinctNames();
    FullDecision(schema, "Y", StopAtFirstY, x, [r], log);
    FullDecision(schema, "Y", StopAtFirstY, z, [x] + [r], log + [Visited(x, [r], Continue)] + [Pushed(x)]);
    AcceptX(stopAtY, [r], log);
    assert [x] + [r] == [x, r];
  }

  lemma StopAtYStopsAtY1(log: seq<Event>)
    ensures WellTyped(schema, y1)
    ensures Accept(schema, stopAtY, y1, [r], log) == Outcome(Terminate, [Visited(y1, [r], Terminate), Pushed(y1), Popped])
  {
    FullDecision(schema, "Y", StopAtFirstY, y1, [r], log);
    AcceptY1(stopAtY, [r], log);
  }

  /**
   * TERMINATE from visit(y1): y1 still gets its push and pop (Y declares a
   * field), y2 is never visited, and R pops itself and reports TERMINATE.
   */
  lemma ScenarioTerminate()
    ensures WellTyped(schema, r)
    ensures Accept(schema, stopAtY, r, [], [])
         == Outcome(Terminate, [Visited(r, [], Continue), Pushed(r)]
                                 + [Visited(x, [r], Continue), Pushed(x), Visited(z, [x, r], Continue), Popped]
                                 + [Visited(y1, [r], Terminate), Pushed(y1), Popped]
                                 + [Popped])
  {
    var l1 := [] + [Visited(r, [], Continue)] + [Pushed(r)];
    AcceptRFields(stopAtY, l1);
    StopAtYVisitsX(l1);
    var a := Accept(schema, stopAtY, x, [r], l1);
    StopAtYStopsAtY1(l1 + a.events);
    var b := Accept(schema, stopAtY, y1, [r], l1 + a.events);
    var f := AcceptFields(schema, stopAtY, r, 0, Continue, [r], l1);
    assert f == Outcome(Terminate, a.events + b.events);
    assert Decide(schema, stopAtY, r, [], []) == Continue by {
      DistinctNames();
      FullDecision(schema, "Y", StopAtFirstY, r, [], []);
    }
    AcceptR(stopAtY, f);
    RegroupTwo(Visited(r, [], Continue), Pushed(r), a.events, b.events, Popped);
  }

  lemma SkipXSkipsX(log: seq<Event>)
    ensures WellTyped(schema, x)
    ensures Accept(schema, skipX, x, [r], log) == Outcome(Continue, [Visited(x, [r], Skip), Pushed(x), Popped])
  {
    XWellTyped();
    OnlyRootOverridden(schema, SkipX, x, [r], log);
    SelfStopPrunes(schema, skipX, x, [r], log);
    assert [Visited(x, [r], Skip)] + [Pushed(x), Popped] == [Visited(x, [r], Skip), Pushed(x), Popped];
  }

  lemma SkipXVisitsY1(log: seq<Event>)
    ensures WellTyped(schema, y1)
    ensures Accept(schema, skipX, y1, [r], log) == Outcome(Continue, [Visited(y1, [r], Continue), Pushed(y1), Popped])
  {
    DistinctNames();
    OnlyRootOverridden(schema, SkipX, y1, [r], log);
    AcceptY1(skipX, [r], log);
  }

  lemma SkipXVisitsY2(log: seq<Event>)
    ensures WellTyped(schema, y2)
    ensures Accept(schema, skipX, y2, [r], log) == Outcome(Continue, [Visited(y2, [r], Continue), Pushed(y2), Popped])
  {
    DistinctNames();
    OnlyRootOverridden(schema, SkipX, y2, [r], log);
    AcceptY2(skipX, [r], log);
  }

  /**
   * AbstractSimpleVisitor forwards visit(X) to the overridden visit(PMMLObject),
   * which answers SKIP: X is pushed and popped without z being visited, and the
   * traversal goes on with y1 and y2 and ends in CONTINUE.
   */
  lemma ScenarioSkip()
    ensures WellTyped(schema, r)
    ensures Accept(schema, skipX, r, [], [])
         == Outcome(Continue, [Visited(r, [], Continue), Pushed(r)]
                                + [Visited(x, [r], Skip), Pushed(x), Popped]
                                + [Visited(y1, [r], Continue), Pushed(y1), Popped]
                                + [Visited(y2, [r], Continue), Pushed(y2), Popped]
                                + [Popped])
  {
    var l1 := [] + [Visited(r, [], Continue)] + [Pushed(r)];
    AcceptRFields(skipX, l1);
    SkipXSkipsX(l1);
    var a := Accept(schema, skipX, x, [r], l1);
    SkipXVisitsY1(l1 + a.events);
    var b := Accept(schema, skipX, y1, [r], l1 + a.events);
    SkipXVisitsY2(l1 + a.events + b.events);
    var c := Accept(schema, skipX, y2, [r], l1 + a.events + b.events);
    var f := AcceptFields(schema, skipX, r, 0, Continue, [r], l1);
    assert f == Outcome(Continue, a.events + b.events + c.events);
    assert Decide(schema, skipX, r, [], []) == Continue by {
      DistinctNames();
      OnlyRootOverridden(schema, SkipX, r, [], []);
    }
    AcceptR(skipX, f);
    Regroup(Visited(r, [], Continue), Pushed(r), a.events, b.events, c.events, Popped);
  }
}
