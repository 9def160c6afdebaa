/**
 * The schema-derived class metadata the visitor plugin works from: for every
 * generated class, its name, the class it extends and its own declared fields.
 * From it the plugin derives the set of traversable types, which decides how
 * the generated `accept` treats each field.
 */
module Schema {
  import opened Wrappers

  /** `java.lang.Object`, the element type of heterogeneous ("any element") collections. */
  const OBJECT: string := "java.lang.Object"

  /** `org.dmg.pmml.PMMLObject`, the hand-written root class whose `visit` overload ends every supertype chain. */
  const PMML_OBJECT: string := "org.dmg.pmml.PMMLObject"

  /** A declared field; for a collection field `typeName` is the element type. */
  datatype FieldDecl = FieldDecl(name: string, typeName: string, isCollection: bool)

  /** A generated class: its name, the class it directly extends and its own declared fields, in order. */
  datatype ClassInfo = ClassInfo(name: string, superName: string, fields: seq<FieldDecl>)

  /** The generated classes, in the order the schema compiler lists them. */
  type Registry = seq<ClassInfo>

  /** The first generated class named `t`, if any. */
  function Find(reg: Registry, t: string): (r: Option<ClassInfo>)
    ensures r.Some? ==> r.value in reg && r.value.name == t
    ensures r.None? <==> forall c :: c in reg ==> c.name != t
  {
    if reg == [] then None
    else if reg[0].name == t then Some(reg[0])
    else Find(reg[1..], t)
  }

  predicate Registered(reg: Registry, t: string)
  {
    Find(reg, t).Some?
  }

  /** The fields a generated class declares itself (inherited fields are not included). */
  function DeclaredFields(reg: Registry, t: string): seq<FieldDecl>
    requires Registered(reg, t)
  {
    Find(reg, t).value.fields
  }

  /** The class a generated class directly extends. */
  function SuperOf(reg: Registry, t: string): string
    requires Registered(reg, t)
  {
    Find(reg, t).value.superName
  }

  /** The traversable types: every generated class together with the class it directly extends. */
  function Traversable(reg: Registry): set<string>
  {
    (set c | c in reg :: c.name) + (set c | c in reg :: c.superName)
  }

  /**
   * The plugin's first pass over the generated classes: an insertion-ordered
   * set (a sequence without repetitions) that receives each class and then its
   * superclass.
   */
  method ComputeTraversable(reg: Registry) returns (types: seq<string>)
    ensures forall t :: t in types <==> t in Traversable(reg)
    ensures forall i, j :: 0 <= i < j < |types| ==> types[i] != types[j]
  {
    types := [];
    var k := 0;
    while k < |reg|
      invariant 0 <= k <= |reg|
      invariant forall t :: t in types <==> t in Traversable(reg[..k])
      invariant forall i, j :: 0 <= i < j < |types| ==> types[i] != types[j]
    {
      assert reg[..k + 1] == reg[..k] + [reg[k]];
      var c := reg[k];
      if c.name !in types {
        types := types + [c.name];
      }
      if c.superName !in types {
        types := types + [c.superName];
      }
      k := k + 1;
    }
    assert reg[..k] == reg;
  }

  /** How the generated `accept` treats one declared field. */
  datatype Plan =
    | VisitScalar     // a single value of a traversable type: accepted when non-null
    | VisitEach       // a list of a traversable element type: every element accepted, with no null check
    | VisitVisitable  // a list of java.lang.Object: only the elements that are Visitable are accepted
    | Ignore          // any other field: never read

  /** The plan the generator chooses for a field, from its collection flag and (element) type. */
  function PlanOf(reg: Registry, f: FieldDecl): (p: Plan)
    ensures p == Ignore <==> if f.isCollection then f.typeName !in Traversable(reg) && f.typeName != OBJECT
                             else f.typeName !in Traversable(reg)
    ensures p == VisitScalar ==> !f.isCollection
    ensures p == VisitEach || p == VisitVisitable ==> f.isCollection
    ensures p == VisitEach <==> f.isCollection && f.typeName in Traversable(reg)
    ensures p == VisitVisitable <==> f.isCollection && f.typeName !in Traversable(reg) && f.typeName == OBJECT
  {
    if f.isCollection then
      if f.typeName in Traversable(reg) then VisitEach
      else if f.typeName == OBJECT then VisitVisitable
      else Ignore
    else if f.typeName in Traversable(reg) then VisitScalar
    else Ignore
  }

  /** Following superclasses from `t` leaves the generated classes within `k` steps. */
  predicate ChainEnds(reg: Registry, t: string, k: nat)
    decreases k
  {
    !Registered(reg, t) || (k > 0 && ChainEnds(reg, SuperOf(reg, t), k - 1))
  }

  /** No generated class is its own (indirect) superclass, as Java guarantees. */
  predicate Acyclic(reg: Registry)
  {
    forall c :: c in reg ==> ChainEnds(reg, c.name, |reg|)
  }
}
