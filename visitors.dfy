/**
 * The visitor side of the protocol: the three-valued action a `visit`
 * returns, the two generated base visitors (AbstractVisitor and
 * AbstractSimpleVisitor) with their per-type `visit` defaults, and the
 * parents deque both of them keep.
 */
module Visitors {
  import opened Wrappers
  import opened Schema
  import opened Tree

  /** VisitorAction. */
  datatype Action = Continue | Skip | Terminate

  /** What a visitor receives during a traversal, in call order. */
  datatype Event =
    | Visited(node: Node, ancestors: seq<Node>, action: Action)  // visit(node) with this parents deque, and its answer
    | Pushed(node: Node)                                          // pushParent(node)
    | Popped                                                      // popParent()

  /**
   * A concrete visitor's overriding `visit` body: it may look at the node,
   * at the parents deque (most recent first) and at everything the visitor
   * has received so far.
   */
  type Handler = (Node, seq<Node>, seq<Event>) -> Action

  /** Which generated base class a concrete visitor extends. */
  datatype Base =
    | Full    // AbstractVisitor: one visit(T) per generated class, each returning CONTINUE
    | Simple  // AbstractSimpleVisitor: visit(T) forwards to visit(superclass of T), ending at visit(PMMLObject)

  /** A concrete visitor: its base class and the `visit` overloads it overrides, by parameter type. */
  datatype VisitorDef = VisitorDef(base: Base, overrides: map<string, Handler>)

  /**
   * The overload of AbstractSimpleVisitor that finally answers visit(t): the
   * first overridden overload along t's superclass chain, else the
   * overridden visit(PMMLObject), else none (the default CONTINUE).
   */
  function SimpleOwner(reg: Registry, overrides: map<string, Handler>, t: string, fuel: nat): (r: Option<string>)
    ensures r.Some? ==> r.value in overrides
    ensures r.Some? ==> r.value == PMML_OBJECT || Registered(reg, r.value)
    ensures r.Some? && r.value != PMML_OBJECT ==> OnChain(reg, t, r.value, fuel)
    ensures !Registered(reg, t) ==> r == (if PMML_OBJECT in overrides then Some(PMML_OBJECT) else None)
    ensures (forall k :: k in overrides ==> k == PMML_OBJECT) ==> r == (if PMML_OBJECT in overrides then Some(PMML_OBJECT) else None)
    decreases fuel
  {
    if fuel > 0 && Registered(reg, t) then
      if t in overrides then Some(t) else SimpleOwner(reg, overrides, SuperOf(reg, t), fuel - 1)
    else if PMML_OBJECT in overrides then Some(PMML_OBJECT)
    else None
  }

  /** `u` is `t` or one of its superclasses among the first `fuel` generated classes of `t`'s superclass chain. */
  predicate OnChain(reg: Registry, t: string, u: string, fuel: nat)
    decreases fuel
  {
    fuel > 0 && Registered(reg, t) && (u == t || OnChain(reg, SuperOf(reg, t), u, fuel - 1))
  }

  /** The answer of `visitor.visit(n)`, dispatched on the runtime class of `n`. */
  function Decide(reg: Registry, vd: VisitorDef, n: Node, ancestors: seq<Node>, log: seq<Event>): Action
  {
    match vd.base
    case Full =>
      if n.typeName in vd.overrides then vd.overrides[n.typeName](n, ancestors, log) else Continue
    case Simple =>
      match SimpleOwner(reg, vd.overrides, n.typeName, |reg|)
      case Some(k) => vd.overrides[k](n, ancestors, log)
      case None => Continue
  }

  /** A visitor that overrides nothing answers CONTINUE to every node, whichever base it extends. */
  lemma NoOverridesContinue(reg: Registry, base: Base, n: Node, ancestors: seq<Node>, log: seq<Event>)
    ensures Decide(reg, VisitorDef(base, map[]), n, ancestors, log) == Continue
  {
  }

  /** SimpleOwner no longer depends on the fuel once the chain from `t` has left the generated classes. */
  lemma {:induction false} SimpleOwnerFuel(reg: Registry, overrides: map<string, Handler>, t: string, k: nat, m: nat)
    requires ChainEnds(reg, t, k) && k <= m
    ensures SimpleOwner(reg, overrides, t, m) == SimpleOwner(reg, overrides, t, k)
    decreases k
  {
    if k > 0 && Registered(reg, t) && t !in overrides {
      SimpleOwnerFuel(reg, overrides, SuperOf(reg, t), k - 1, m - 1);
    }
  }

  /**
   * AbstractSimpleVisitor's visit(t), for a generated class t it does not
   * override, answers exactly as visit(superclass of t); an overridden
   * visit(t) answers itself.
   */
  lemma SimpleForwards(reg: Registry, overrides: map<string, Handler>, t: string)
    requires Acyclic(reg) && Registered(reg, t)
    ensures SimpleOwner(reg, overrides, t, |reg|)
         == if t in overrides then Some(t) else SimpleOwner(reg, overrides, SuperOf(reg, t), |reg|)
  {
    var c := Find(reg, t).value;
    assert ChainEnds(reg, c.name, |reg|);
    if t !in overrides {
      SimpleOwnerFuel(reg, overrides, SuperOf(reg, t), |reg| - 1, |reg|);
    }
  }

  /**
   * A visitor object: the concrete visitor's overloads, the private parents
   * deque (front first) and the record of calls it has received.
   */
  class Visitor {
    const reg: Registry
    const def: VisitorDef
    var parents: seq<Node>
    var log: seq<Event>

    /** A fresh visitor starts with an empty deque. */
    constructor (reg: Registry, def: VisitorDef)
      ensures this.reg == reg && this.def == def
      ensures parents == [] && log == []
    {
      this.reg := reg;
      this.def := def;
      parents := [];
      log := [];
    }

    /** visit(n): the concrete visitor's answer; the deque is not touched. */
    method Visit(n: Node) returns (a: Action)
      modifies this
      ensures a == Decide(reg, def, n, old(parents), old(log))
      ensures parents == old(parents)
      ensures log == old(log) + [Visited(n, old(parents), a)]
    {
      a := Decide(reg, def, n, parents, log);
      log := log + [Visited(n, parents, a)];
    }

    /** pushParent: `addFirst` on the deque. */
    method PushParent(n: Node)
      modifies this
      ensures parents == [n] + old(parents)
      ensures log == old(log) + [Pushed(n)]
    {
      parents := [n] + parents;
      log := log + [Pushed(n)];
    }

    /** popParent: `removeFirst` on the deque; `ok` is false where removeFirst would throw on an empty deque. */
    method PopParent() returns (ok: bool)
      modifies this
      ensures ok <==> old(parents) != []
      ensures parents == if ok then old(parents)[1..] else old(parents)
      ensures log == if ok then old(log) + [Popped] else old(log)
    {
      ok := parents != [];
      if ok {
        parents := parents[1..];
        log := log + [Popped];
      }
    }

    /** getParents: the deque, most recently pushed first. */
    method GetParents() returns (p: seq<Node>)
      ensures p == parents
    {
      p := parents;
    }
  }
}
