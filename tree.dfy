/**
 * Runtime instances of the generated classes. A node owns the values of the
 * fields its class declares, in declaration order. Node values are finite
 * trees, so an object graph with a cycle (on which the generated `accept`
 * would recurse until the stack overflows) cannot be expressed.
 */
module Tree {
  import opened Schema

  /** A field value or list element: null, a Visitable instance of a generated class, or any other object. */
  datatype Value = Null | Visitable(node: Node) | Other

  /** The value of one declared field: a single value, or a list that may itself be null. */
  datatype FieldValue = Single(value: Value) | NullList | List(items: seq<Value>)

  /** An instance of the generated class `typeName`, holding its declared fields' values. */
  datatype Node = Node(typeName: string, fields: seq<FieldValue>)

  function Decls(reg: Registry, n: Node): seq<FieldDecl>
    requires Registered(reg, n.typeName)
  {
    DeclaredFields(reg, n.typeName)
  }

  /**
   * The shape the generated `accept` relies on: the class is a generated one,
   * each field value has its declaration's shape (single value or list), and
   * every Visitable value it may descend into is a well-typed instance of a
   * generated class. A child's class is not checked against the field's
   * declared type (Java's subclass conformance is not encoded; traversal does
   * not depend on it). Unlike Java's types, it excludes a null element of a
   * traversable-typed list: the generated loop calls `accept` on it unchecked,
   * so such an element would throw a NullPointerException, a path not modelled.
   * Fields the plugin never reads are unconstrained.
   */
  predicate WellTyped(reg: Registry, n: Node)
    decreases n, 1
  {
    && Registered(reg, n.typeName)
    && |n.fields| == |Decls(reg, n)|
    && forall i :: 0 <= i < |n.fields| ==> FieldWellTyped(reg, n, i)
  }

  predicate FieldWellTyped(reg: Registry, n: Node, i: nat)
    requires Registered(reg, n.typeName) && i < |n.fields| == |Decls(reg, n)|
    decreases n, 0
  {
    var d := Decls(reg, n)[i];
    var f := n.fields[i];
    && d.isCollection == !f.Single?
    && match PlanOf(reg, d)
       case VisitScalar =>
         f.value.Null? || (f.value.Visitable? && WellTyped(reg, f.value.node))
       case VisitEach =>
         f.List? ==> forall j :: 0 <= j < |f.items| ==> f.items[j].Visitable? && WellTyped(reg, f.items[j].node)
       case VisitVisitable =>
         f.List? ==> forall j :: 0 <= j < |f.items| ==> f.items[j].Visitable? ==> WellTyped(reg, f.items[j].node)
       case Ignore => true
  }

  /**
   * Reference order of a full traversal: the node, then for each field in
   * declaration order the traversal of every child the generated code
   * descends into (non-null values of traversable fields, every element of a
   * traversable-typed list, the Visitable elements of an Object-typed list).
   */
  function Preorder(reg: Registry, n: Node): (r: seq<Node>)
    requires WellTyped(reg, n)
    ensures |r| > 0 && r[0] == n
    decreases n, 2
  {
    [n] + FieldsPreorder(reg, n, 0)
  }

  function FieldsPreorder(reg: Registry, n: Node, i: nat): seq<Node>
    requires WellTyped(reg, n) && i <= |n.fields|
    decreases n, 1, |n.fields| - i
  {
    if i == |n.fields| then []
    else FieldPreorder(reg, n, i) + FieldsPreorder(reg, n, i + 1)
  }

  function FieldPreorder(reg: Registry, n: Node, i: nat): seq<Node>
    requires WellTyped(reg, n) && i < |n.fields|
    decreases n, 1, |n.fields| - i, 0
  {
    assert FieldWellTyped(reg, n, i);
    match PlanOf(reg, Decls(reg, n)[i])
    case VisitScalar =>
      if n.fields[i].value.Visitable? then Preorder(reg, n.fields[i].value.node) else []
    case Ignore => []
    case _ => ItemsPreorder(reg, n, i, 0)
  }

  function ItemsPreorder(reg: Registry, n: Node, i: nat, j: nat): seq<Node>
    requires WellTyped(reg, n) && i < |n.fields|
    requires PlanOf(reg, Decls(reg, n)[i]) in {VisitEach, VisitVisitable}
    requires n.fields[i].List? ==> j <= |n.fields[i].items|
    decreases n, 0, |n.fields| - i, if n.fields[i].List? then |n.fields[i].items| - j else 0
  {
    if !n.fields[i].List? || j == |n.fields[i].items| then []
    else
      assert FieldWellTyped(reg, n, i);
      var item := n.fields[i].items[j];
      (if item.Visitable? then Preorder(reg, item.node) else [])
        + ItemsPreorder(reg, n, i, j + 1)
  }
  /** The number of Visitable nodes in `n`'s tree, `n` included, over every field. */
  function Size(n: Node): nat
    decreases n, 2
  {
    1 + FieldsSize(n, 0)
  }

  function FieldsSize(n: Node, i: nat): nat
    requires i <= |n.fields|
    decreases n, 1, |n.fields| - i
  {
    if i == |n.fields| then 0 else FieldSize(n, i) + FieldsSize(n, i + 1)
  }

  function FieldSize(n: Node, i: nat): nat
    requires i < |n.fields|
    decreases n, 1, |n.fields| - i, 0
  {
    match n.fields[i]
    case Single(v) => if v.Visitable? then Size(v.node) else 0
    case NullList => 0
    case List(items) => ItemsSize(n, i, 0)
  }

  function ItemsSize(n: Node, i: nat, j: nat): nat
    requires i < |n.fields| && n.fields[i].List? && j <= |n.fields[i].items|
    decreases n, 0, |n.fields| - i, |n.fields[i].items| - j
  {
    var items := n.fields[i].items;
    if j == |items| then 0
    else (if items[j].Visitable? then Size(items[j].node) else 0) + ItemsSize(n, i, j + 1)
  }

  /** No node in a tree's preorder is larger than the tree. */
  lemma {:induction false} PreorderSizes(reg: Registry, n: Node)
    requires WellTyped(reg, n)
    ensures forall m :: m in Preorder(reg, n) ==> Size(m) <= Size(n)
    decreases n, 2
  {
    FieldsPreorderSizes(reg, n, 0);
  }

  /** The nodes reached through fields `i..` are no larger than those fields together, so strictly smaller than `n`. */
  lemma {:induction false} FieldsPreorderSizes(reg: Registry, n: Node, i: nat)
    requires WellTyped(reg, n) && i <= |n.fields|
    ensures forall m :: m in FieldsPreorder(reg, n, i) ==> Size(m) <= FieldsSize(n, i)
    decreases n, 1, |n.fields| - i
  {
    if i < |n.fields| {
      FieldPreorderSizes(reg, n, i);
      FieldsPreorderSizes(reg, n, i + 1);
    }
  }

  lemma {:induction false} FieldPreorderSizes(reg: Registry, n: Node, i: nat)
    requires WellTyped(reg, n) && i < |n.fields|
    ensures forall m :: m in FieldPreorder(reg, n, i) ==> Size(m) <= FieldSize(n, i)
    decreases n, 1, |n.fields| - i, 0
  {
    assert FieldWellTyped(reg, n, i);
    match PlanOf(reg, Decls(reg, n)[i])
    case VisitScalar =>
      if n.fields[i].value.Visitable? {
        PreorderSizes(reg, n.fields[i].value.node);
      }
    case Ignore =>
    case _ =>
      if n.fields[i].List? {
        ItemsPreorderSizes(reg, n, i, 0);
      }
  }

  lemma {:induction false} ItemsPreorderSizes(reg: Registry, n: Node, i: nat, j: nat)
    requires WellTyped(reg, n) && i < |n.fields|
    requires PlanOf(reg, Decls(reg, n)[i]) in {VisitEach, VisitVisitable}
    requires n.fields[i].List? && j <= |n.fields[i].items|
    ensures forall m :: m in ItemsPreorder(reg, n, i, j) ==> Size(m) <= ItemsSize(n, i, j)
    decreases n, 0, |n.fields| - i, |n.fields[i].items| - j
  {
    if j < |n.fields[i].items| {
      assert FieldWellTyped(reg, n, i);
      var item := n.fields[i].items[j];
      if item.Visitable? {
        PreorderSizes(reg, item.node);
      }
      ItemsPreorderSizes(reg, n, i, j + 1);
    }
  }
}
