# Visitor traversal protocol of the JPMML class model

The JPMML schema compiler plugin `VisitorPlugin` gives every generated PMML
class an `accept(Visitor)` method and generates two base visitors,
`AbstractVisitor` and `AbstractSimpleVisitor`. This project models what that
generated code does and proves its rules.

- **Traversable types** (`Schema`). A field is traversed when its type (for a
  list, its element type) is a traversable type. The traversable types are
  every generated class together with the class it directly extends.
  `java.lang.Object` lists are traversed too, element by element, and only
  the `Visitable` elements are accepted. `PlanOf` gives the treatment of each
  declared field.
- **Node values** (`Tree`). An instance of a generated class holds the values
  of its declared fields. `WellTyped` asks that each field value has the
  declared shape (single value or list) and that every Visitable value is an
  instance of a registered generated class, well typed in turn; it does not
  ask that a child's class is the field's declared type or a subclass of it,
  which Java's types would (traversal does not depend on that). It also
  excludes a null element of a traversable-typed list (see "Left out").
  `Preorder` is the reference order of a full traversal.
- **Visitors** (`Visitors`). `visit` answers one of CONTINUE, SKIP or
  TERMINATE. A concrete visitor extends one of the two bases and overrides
  some `visit` overloads. Each override is a function of the node, the
  parents deque and everything the visitor has received so far:
  - `AbstractVisitor` answers CONTINUE for every class it does not override;
  - `AbstractSimpleVisitor` forwards `visit(T)` to the overload of `T`'s
    superclass, ending at `visit(PMMLObject)`, which answers CONTINUE.

  The class `Visitor` holds the private `parents` deque and the record of
  calls received. It has `pushParent` (`addFirst`), `popParent`
  (`removeFirst`) and `getParents`.
- **The generated `accept`**, in two forms:
  - `Traversal.Accept` and its helpers are the meaning of the method, as
    functions on values;
  - `Generated.AcceptNode` and its helpers are the statements the plugin
    emits. These are the self-visit, the conditional push, one statement per
    declared field, the indexed loop over each list with its
    `status == CONTINUE && list != null && i < size` test, the pop and the
    normalised return. They are proved to produce exactly what
    `Traversal.Accept` describes: the same result, the same calls on the
    visitor in the same order, and the deque restored.
- **Protocol rules** (`Traversal`, `Protocol`). These lemmas hold for every
  visitor:
  - TERMINATE reaches the root, and nothing is visited after it;
  - SKIP prunes only the node's own children;
  - pushes and pops balance, and every visit sees the deque as it then is;
  - the visits follow the preorder.

  There are also three concrete traversals (`Scenarios`).

Where the generated code differs from how the protocol is usually described,
the model follows the code:
- `pushParent`/`popParent` happen when the class declares any field, even if
  none of its fields is traversable.
- Elements of a traversable-typed list are not null-checked. A null element
  would throw a `NullPointerException`, so `WellTyped` excludes it. Only
  `java.lang.Object` lists filter their elements, through `instanceof Visitable`.
- The traversable set is every generated class plus its direct superclass,
  not the set of field types that occur.
- Only the fields a class declares itself are traversed. Inherited fields are
  left to the superclass's own `accept`, which the generated method does not call.
- There is no "unknown type" or "no default visit" failure. Java's types rule
  the first out (`WellTyped` requires the class to be registered), and both
  base visitors always answer.

## Model

| member | source | states |
|---|---|---|
| Schema.ComputeTraversable | xjc/src/main/java/org/jpmml/xjc/VisitorPlugin.java:92-101 | a type is in the computed set iff it is a generated class or the direct superclass of one; the set holds no repetitions |
| Schema.PlanOf | xjc/src/main/java/org/jpmml/xjc/VisitorPlugin.java:147-176 | a field is ignored iff its (element) type is not traversable and, for a list, not java.lang.Object; a list gets the unchecked-accept loop iff its element type is traversable, and the `instanceof Visitable` loop iff its element type is java.lang.Object and not traversable; only non-list fields get the guarded scalar accept |
| Visitors.SimpleOwner | xjc/src/main/java/org/jpmml/xjc/VisitorPlugin.java:88-124 | the overload that answers a simple visitor's visit(T) is an overridden one, either visit(PMMLObject) or that of a class on T's superclass chain; once the chain leaves the generated classes the answer is the overridden visit(PMMLObject), else the default CONTINUE |
| Visitors.SimpleForwards | xjc/src/main/java/org/jpmml/xjc/VisitorPlugin.java:119-124 | for a generated class T not overridden, AbstractSimpleVisitor answers visit(T) exactly as visit(superclass of T) |
| Visitors.NoOverridesContinue | xjc/src/main/java/org/jpmml/xjc/VisitorPlugin.java:88-124 | with nothing overridden, AbstractVisitor and AbstractSimpleVisitor both answer CONTINUE to every node |
| Visitors.Visitor.constructor | xjc/src/main/java/org/jpmml/xjc/VisitorPlugin.java:193 | a new visitor's deque is empty |
| Visitors.Visitor.Visit | xjc/src/main/java/org/jpmml/xjc/VisitorPlugin.java:133 | visit(n) returns the concrete visitor's answer for n, given the current deque and history, and leaves the deque unchanged |
| Visitors.Visitor.PushParent | xjc/src/main/java/org/jpmml/xjc/VisitorPlugin.java:195-198 | pushParent puts the node at the front of the deque |
| Visitors.Visitor.PopParent | xjc/src/main/java/org/jpmml/xjc/VisitorPlugin.java:200-202 | popParent removes the front of the deque; it fails iff the deque is empty, and then changes nothing |
| Visitors.Visitor.GetParents | xjc/src/main/java/org/jpmml/xjc/VisitorPlugin.java:204-205 | getParents returns the deque, most recent parent first |
| Traversal.Normalise | xjc/src/main/java/org/jpmml/xjc/VisitorPlugin.java:183-185 | the returned action is never SKIP, and it is TERMINATE iff the status was TERMINATE |
| Traversal.Accept | xjc/src/main/java/org/jpmml/xjc/VisitorPlugin.java:126-185 | accept never returns SKIP |
| Traversal.FieldsIdle | xjc/src/main/java/org/jpmml/xjc/VisitorPlugin.java:140-177 | once the status is not CONTINUE, the remaining field statements call nothing and keep the status |
| Traversal.SelfStopPrunes | xjc/src/main/java/org/jpmml/xjc/VisitorPlugin.java:133-185 | if visit(this) answers SKIP or TERMINATE, no child is visited: the visitor sees only the self-visit and the push/pop pair, and accept returns CONTINUE for SKIP and TERMINATE for TERMINATE |
| Traversal.PushPopIffFields | xjc/src/main/java/org/jpmml/xjc/VisitorPlugin.java:135-181 | pushParent(this) follows the self-visit and popParent() comes last iff the class declares a field; otherwise the self-visit is the only call |
| Traversal.AcceptBalanced | xjc/src/main/java/org/jpmml/xjc/VisitorPlugin.java:136-181 | replaying accept's calls against the deque it started with never pops an empty deque, shows every visit the current deque, and ends with the starting deque, whatever the visitor answers |
| Protocol.TerminateReachesRoot | xjc/src/main/java/org/jpmml/xjc/VisitorPlugin.java:156-185 | accept returns TERMINATE iff some visit during it answered TERMINATE, and no visit follows such a visit |
| Protocol.ItemsTerminate | xjc/src/main/java/org/jpmml/xjc/VisitorPlugin.java:154-167 | the list loop ends in TERMINATE iff it was entered with TERMINATE or some visit inside it answered TERMINATE; no visit follows such an answer, so later elements are not visited; a TERMINATE inside requires the loop to have been entered with CONTINUE |
| Protocol.ItemsFollowPreorder | xjc/src/main/java/org/jpmml/xjc/VisitorPlugin.java:154-167 | whatever the visitor answers, the list loop from index j visits a subsequence of the preorders of elements j, j+1, ... in index order (Visitable elements only; null and foreign elements contribute nothing) |
| Protocol.ItemsContinue | xjc/src/main/java/org/jpmml/xjc/VisitorPlugin.java:154-167 | with a visitor that always answers CONTINUE, the list loop from index j visits exactly the preorders of elements j, j+1, ... in index order and ends with CONTINUE |
| Protocol.SelfVisitOnce | xjc/src/main/java/org/jpmml/xjc/VisitorPlugin.java:133 | visit(this) is called exactly once during accept: it is the first visit, and no later visit is of this node (every later visit is of a node strictly inside it) |
| Protocol.SelfVisitFirst | xjc/src/main/java/org/jpmml/xjc/VisitorPlugin.java:133-138 | the first call of accept is visit(this) with the caller's deque, and every later visit during it has this node on the deque above the caller's deque |
| Protocol.AcceptBelow | xjc/src/main/java/org/jpmml/xjc/VisitorPlugin.java:136-181 | every visit during accept keeps the caller's deque at the bottom of the deque |
| Protocol.VisitsFollowPreorder | xjc/src/main/java/org/jpmml/xjc/VisitorPlugin.java:140-176 | whatever the visitor answers, the visited nodes are a subsequence of the tree's preorder over traversable fields: fields in declaration order, list elements in index order, nothing else |
| Protocol.ContinueVisitsPreorder | xjc/src/main/java/org/jpmml/xjc/VisitorPlugin.java:140-176 | a visitor that always answers CONTINUE visits exactly the preorder, and accept returns CONTINUE |
| Protocol.BaseVisitorsVisitPreorder | xjc/src/main/java/org/jpmml/xjc/VisitorPlugin.java:114-124 | the base visitors with nothing overridden visit exactly the preorder, leave the deque as they found it and get CONTINUE |
| Generated.AcceptNode | xjc/src/main/java/org/jpmml/xjc/VisitorPlugin.java:126-185 | the generated accept returns Accept's result, makes exactly Accept's calls on the visitor and restores the deque |
| Generated.AcceptFieldStatements | xjc/src/main/java/org/jpmml/xjc/VisitorPlugin.java:140-177 | the field statements, in declaration order, thread the status as the field part of Accept does |
| Generated.AcceptFieldStatement | xjc/src/main/java/org/jpmml/xjc/VisitorPlugin.java:147-176 | a scalar field is accepted only when the status is CONTINUE and the value is non-null; a list runs its loop; any other field is not read |
| Generated.AcceptListStatement | xjc/src/main/java/org/jpmml/xjc/VisitorPlugin.java:150-168 | the loop stops at a null list, at the end of the list, or as soon as the status is not CONTINUE, and makes exactly the calls of the list part of Accept |
| Generated.AcceptItemStatement | xjc/src/main/java/org/jpmml/xjc/VisitorPlugin.java:159-167 | the loop body accepts every element of a traversable list and only the Visitable elements of an Object list, leaving the status CONTINUE otherwise |
| Scenarios.ScenarioAllContinue | xjc/src/main/java/org/jpmml/xjc/VisitorPlugin.java:126-185 | a plain AbstractVisitor on R(a = X(z = Z), items = [y1, y2]) visits R, X, Z, y1, y2 with deques [], [R], [X, R], [R], [R] and gets CONTINUE |
| Scenarios.ScenarioTerminate | xjc/src/main/java/org/jpmml/xjc/VisitorPlugin.java:156-185 | TERMINATE from visit(y1): y1 is still pushed and popped, y2 is never visited, R pops itself and accept returns TERMINATE |
| Scenarios.ScenarioSkip | xjc/src/main/java/org/jpmml/xjc/VisitorPlugin.java:119-185 | an AbstractSimpleVisitor whose visit(PMMLObject) answers SKIP for X: X is pushed and popped without Z being visited, y1 and y2 are still visited, and the result is CONTINUE |

## Left out

- XJC and codemodel plumbing (`JCodeModel`, `ClassOutline`, `JExpr`, the plugin's option name and usage text): the model describes the emitted code, not how its syntax tree is built.
- Parameter-name mangling (`NameConverter`, `JJavaName`): it only names the `visit` parameter and does not change traversal.
- Java overload resolution: `AbstractSimpleVisitor`'s forwarding is modelled as a walk up the registry's superclass links (`SimpleOwner`). It is bounded by the registry's size, which is enough for an acyclic class hierarchy (`Acyclic`).
- Visitors.Visitor.PopParent: `removeFirst` on an empty deque throws `NoSuchElementException`; the model returns `ok == false` instead. The generated `accept` never pops an empty deque (`AcceptBalanced`).
- A null element of a traversable-typed list: the generated code throws a `NullPointerException` there. `WellTyped` excludes such trees, so that path is not modelled.
- A Visitable value whose class is not a generated one (a hand-written `Visitable` placed in a `java.lang.Object` list): `WellTyped` requires every Visitable value to be an instance of a generated class, so such a value's own `accept` is not modelled.
- Cyclic object graphs: nodes are finite datatype values, so a cycle of references, on which the generated `accept` recurses until it throws `StackOverflowError`, cannot be expressed.
- Overriding `visit` methods are pure functions of the node, the deque and the calls so far. Side effects of user code, and a visit that throws, are not modelled.
- A `visit` override that returns `null`: the generated `status == CONTINUE` guards and the `status == TERMINATE` test are then all false, so a null answer acts like SKIP. `Action` has no null value, so this case is not modelled.
- Visitors.Visitor.GetParents: Java's `getParents` returns the live `ArrayDeque`, which a visitor may keep or push and pop through, breaking the balance `AcceptBalanced` proves; the model returns a copy of the deque's contents, so that aliasing is not captured.
- Inherited fields and the hand-written `PMMLObject` root: each class's `accept` only walks its own declared fields. Calls into the hand-written runtime (`PMMLObject`, `Visitable`) are not part of this model.
- Schema generation and JAXB unmarshalling of PMML documents: these are input/output with no traversal logic.
- Thread-safety of a shared visitor: the generated code has no concurrency logic. The model is single-threaded.
