# Lox static resolver, modelled in Dafny

This project models the static resolution pass of the jlox interpreter
(`jlox/lox/Resolver.java`). The pass walks a parsed Lox program once,
depth first. It keeps a stack of lexical scopes, each mapping a name to
"declared" (`false`) or "defined" (`true`), plus the kind of function and
the kind of class the walk is inside. It produces two append-only outputs:

- for every variable read, assignment, `this` and `super` node whose name
  some scope on the stack holds, the distance to the innermost such scope
  (0 is the innermost scope);
- the compile-time errors it finds. The walk reports each one and carries on.

The model is a family of pure, mutually recursive Dafny functions:

- The syntax tree is immutable datatypes (`Ast`). Every node whose binding
  is recorded carries an identity.
- The scope stack is a `seq<map<string, bool>>` (`Scopes`).
- A statement takes the resolver's state `Env` (scopes, function kind,
  class kind). It returns the new state together with what it appended to
  the outputs: a list of `Local(id, depth)` and a list of
  `Diagnostic(kind, lexeme)`.
- An expression never changes the state, so it returns only what it
  appended.
- Every `Lox.error` call becomes one `Diagnostic`. Its kind stands for the
  message.
- Every `interpreter.resolve` call becomes one `Local`.

The model follows the code in one place where a reading of the pass as
"report, otherwise resolve" would differ: a reference is still resolved
after an error has been reported about it. This holds for a read of a
variable in its own initializer, for `this` or `super` outside a class or
without a superclass, and for a value returned from an initializer.
`VisitVariable`, `VisitThis`, `VisitSuper` and `VisitReturn` state this.

The Java test `scopes.peek().get(name) == Boolean.FALSE` compares boxed
references. `put(name, false)` stores the canonical `Boolean.FALSE`, so
the test holds exactly when the innermost scope holds the name as
declared. That is what the model checks.

Modules:

- `ast.dfy`: `Ast`, the tree, plus the reference nodes of a tree in walk
  order (`ExprUses`, `StmtRefs`) and the names a statement declares in
  the current scope (`DeclaredNames`).
- `scopes.dfy`: `Scopes`, the scope stack, `Lookup` and its loop form
  `FindBinding`.
- `occurrences.dfy`: `Occurrences`, what the tree alone says about the
  errors. A `Census` counts the nodes whose error depends only on where
  they sit: `return`, `this`, `super` and self-inheriting classes.
  `Dups` counts duplicate declarations and `SelfReads` counts reads of a
  variable in its own initializer. `StmtExpected` gathers these, with the
  declared names and the reference nodes, into what a statement's
  resolution is expected to do.
- `resolver.dfy`: `Resolver`, the walk. `Effect` relates a statement's
  resolution to its `StmtExpected`.
- `properties.dfy`: `ResolverProperties`, lemmas relating several steps
  of the walk.

## Model

| member | source | states |
|---|---|---|
| `Scopes.BeginScope` | jlox/lox/Resolver.java:82-84 | the stack grows by one empty scope; every scope below it is the old stack |
| `Scopes.EndScope` | jlox/lox/Resolver.java:86-88 | the result with the old innermost scope put back is the stack as it was |
| `Scopes.Put` | jlox/lox/Resolver.java:90-104 | only the innermost scope changes: it gains the name with the given readiness, other names keep theirs; an empty stack stays empty |
| `Scopes.Lookup` | jlox/lox/Resolver.java:106-113 | a distance exists iff some scope holds the name; it is below the stack depth, the scope at that distance holds the name, and no scope nearer the innermost one does |
| `Scopes.FindBinding` | jlox/lox/Resolver.java:106-113 | the innermost-outward loop returns exactly the distance `Lookup` defines, `None` when it runs off the stack |
| `Resolver.Declare` | jlox/lox/Resolver.java:90-98 | at most one error, and one iff the stack is non-empty and the innermost scope already holds the name; the name is then held as not yet defined, every other name and every outer scope is unchanged; at global level nothing changes |
| `Resolver.Define` | jlox/lox/Resolver.java:100-104 | the innermost scope holds the name as defined, everything else is unchanged; at global level nothing changes |
| `Resolver.DeclareThenDefine` | jlox/lox/Resolver.java:90-104 | declaring then defining a name changes the stack only by adding that name, defined, to the innermost scope |
| `Resolver.DeclareDefine` | jlox/lox/Resolver.java:129-135 | declare-and-define of a function's name: only that name is added to the innermost scope, defined; a duplicate error iff the scope already held it; no distance recorded |
| `Resolver.ResolveLocal` | jlox/lox/Resolver.java:106-113 | at most one entry; none iff no scope holds the name; an entry carries the node's identity and the distance of the innermost scope holding the name |
| `Resolver.LocalsBound` | jlox/lox/Resolver.java:106-113 | looking up a list of nodes records each node at most as often as it occurs, and nothing else |
| `Resolver.BindDepths` | jlox/lox/Resolver.java:106-113 | every distance recorded for a list of nodes is below the stack depth |
| `Resolver.VisitVariable` | jlox/lox/Resolver.java:230-237 | at most one error, and one iff the innermost scope holds the name as declared but not defined, and it is the self-read error for that name; the read is resolved through `ResolveLocal` either way |
| `Resolver.VisitThis` | jlox/lox/Resolver.java:296-303 | at most one error, the outside-of-class error, and one iff the class kind is none; `this` is looked up either way |
| `Resolver.VisitSuper` | jlox/lox/Resolver.java:305-314 | outside a class the outside-of-class error only, in a class without superclass the no-superclass error only, in a subclass no error; `super` is looked up in every case |
| `Resolver.VisitAssignTarget` | jlox/lox/Resolver.java:183-188 | the assignment target is looked up like a read but with no self-read check, so it never reports |
| `Resolver.ResolveExpr` | jlox/lox/Resolver.java:183-314 | the expression visitors; their contract is stated by `ExprLocalsAreBindings` and `ExprErrorsAreChecks` below: exactly the lookups and exactly the checks of the expression's reference nodes, in walk order |
| `Resolver.ResolveExprs` | jlox/lox/Resolver.java:197-204 | the loop over call arguments; its contract is stated by `ExprsLocalsAreBindings` and `ExprsErrorsAreChecks` |
| `Resolver.ExprLocalsAreBindings` | jlox/lox/Resolver.java:183-314 | what an expression records is exactly the lookup of each of its reference nodes in walk order (value before assignment target, value before `Set` object, callee before arguments), skipping unbound ones |
| `Resolver.ExprsLocalsAreBindings` | jlox/lox/Resolver.java:197-204 | the same for call arguments, in order |
| `Resolver.ExprErrorsAreChecks` | jlox/lox/Resolver.java:183-314 | what an expression reports is exactly the check at each of its reference nodes (read, assignment target, `this`, `super`), in walk order: no compound expression adds or drops an error |
| `Resolver.ExprsErrorsAreChecks` | jlox/lox/Resolver.java:197-204 | the same for call arguments, in order |
| `Resolver.ChecksCounts` | jlox/lox/Resolver.java:230-314 | the checks at some reference nodes report each free `this` and `super` as the class kind decides, one self-read per read of a declared-but-undefined name, and nothing else |
| `Resolver.ExprErrorsAreAllowed` | jlox/lox/Resolver.java:183-314 | an expression reports only expression errors: none about `this`/`super` outside a class once inside one, no missing superclass outside a plain class, no self-read when every innermost name is defined |
| `Resolver.ReturnChecks` | jlox/lox/Resolver.java:153-160 | the top-level error iff the function kind is none; the initializer error iff a value is returned inside an initializer; no other error, none at another lexeme |
| `Resolver.VisitReturn` | jlox/lox/Resolver.java:152-164 | both error conditions as iff; the keyword's errors come first, then exactly the value's checks, and the value's nodes are looked up whether or not an error was reported |
| `Resolver.VisitReturnStmt` | jlox/lox/Resolver.java:152-164 | a `return` statement appends exactly what `VisitReturn` gives and leaves the resolver state as found |
| `Resolver.DeclareParams` | jlox/lox/Resolver.java:72-75 | the parameters are added, defined, to the innermost scope and nothing else changes; every error is a duplicate at a parameter's lexeme, one per parameter already held when it is declared |
| `Resolver.DeclareParamsErrors` | jlox/lox/Resolver.java:72-75 | declaring the parameters reports nothing iff they are pairwise distinct and none is already in the scope; at global level never |
| `Resolver.EnterFunction` | jlox/lox/Resolver.java:68-75 | the body is resolved one scope deeper, in a scope holding exactly the parameters, all defined, under the given function kind; one duplicate error per repeated parameter, none iff the parameters are distinct |
| `Resolver.ResolveFunction` | jlox/lox/Resolver.java:67-80 | the scope stack and both kinds are restored exactly; the body's `return`/`this`/`super` errors are those the given function kind decides; the duplicates are the repeated parameters plus the body's against the parameter scope; every self-read in the body is reported |
| `Resolver.MethodKind` | jlox/lox/Resolver.java:264-268 | a method is an initializer iff it is named `init`, a plain method otherwise |
| `Resolver.ResolveMethods` | jlox/lox/Resolver.java:264-270 | the methods leave the state as found; each body is resolved under the kind its name gives, so exactly the value returns in `init` methods are initializer errors and no `return` is a top-level one |
| `Resolver.ClassBody` | jlox/lox/Resolver.java:256-262 | one scope holding only `this` on top, under it, with a superclass, one holding only `super`; the scopes below are the enclosing stack |
| `Resolver.ResolveClassBody` | jlox/lox/Resolver.java:256-276 | both class scopes are popped again, leaving the state as found; the methods' errors are counted as for `ResolveMethods` |
| `Resolver.ResolveSuperclass` | jlox/lox/Resolver.java:251-254 | the superclass reference records exactly its own lookup, changes no state, and reports nothing once every innermost name is defined |
| `Resolver.ResolveClass` | jlox/lox/Resolver.java:239-281 | both kinds are restored and the stack only gains the class name, defined; the duplicates are the class name's, when the scope held it, plus the methods'; one self-inheritance error iff the class names itself; no `this`/`super`-outside-class error from the methods; each free `super` in the methods is a no-superclass error iff there is no superclass |
| `Resolver.ExprStep` | jlox/lox/Resolver.java:63-65 | an expression in statement position changes no state and appends its nodes' lookups and checks |
| `Resolver.VisitExpressionStmt` | jlox/lox/Resolver.java:123-127 | an expression statement or a `print` leaves the state as found and appends exactly its expression's lookups and checks |
| `Resolver.VisitBlock` | jlox/lox/Resolver.java:115-121 | a block leaves the state exactly as found: its scope is popped and declares nothing outside; its errors are its statements' in a fresh scope |
| `Resolver.VisitFunction` | jlox/lox/Resolver.java:129-135 | a function declaration adds only its name, defined, to the enclosing scope, restores both kinds, and reports its duplicates and the body's errors as a plain function |
| `Resolver.VisitIf` | jlox/lox/Resolver.java:137-144 | an `if` changes the stack only by the names its branches declare, in the current scope, and reports the condition's and both branches' errors; the condition is resolved first, in the state the `if` is found in, so its lookups and checks come first in what the `if` appends |
| `Resolver.VisitWhile` | jlox/lox/Resolver.java:176-181 | a `while` changes the stack only by the names its body declares, and reports the condition's and the body's errors; the condition is resolved first, in the state the `while` is found in, so its lookups and checks come first in what the `while` appends |
| `Resolver.VisitVar` | jlox/lox/Resolver.java:166-174 | a `var` adds only its name, defined; it reports a duplicate iff the innermost scope held the name, then exactly the initializer's checks with the name declared but not yet defined, and records the initializer's lookups in that same state |
| `Resolver.EffectThen` | jlox/lox/Resolver.java:53-57 | running one statement after another composes what each is expected to do |
| `Resolver.ResolveStmt` | jlox/lox/Resolver.java:59-61 | any statement keeps the stack depth and the outer scopes, only adds its declared names to the innermost one, restores both kinds, reports each context-determined error as often as its nodes and the context decide, its duplicate declarations and its self-reads, and records only its own reference nodes, none more often than it occurs |
| `Resolver.ResolveStmts` | jlox/lox/Resolver.java:53-57 | the same for a statement list resolved in order |
| `Resolver.Resolve` | jlox/lox/Resolver.java:53-57 | a whole program reports each kind of error exactly as often as the tree has the node it is about: free `return`s, value returns in `init`, free `this` and `super`, `super` without superclass, self-inheriting classes, local duplicates and local self-reads; it records only its own reference nodes, none more often than it occurs |
| `ResolverProperties.LookupPush` | jlox/lox/Resolver.java:106-113 | pushing a scope makes its names resolve at 0 and moves every other binding one scope further |
| `ResolverProperties.ReadOfDeclared` | jlox/lox/Resolver.java:231-235 | reading a declared-but-undefined name reports the self-read error and still records distance 0 |
| `ResolverProperties.SelfReadInInitializer` | jlox/lox/Resolver.java:166-174 | in a local scope `var a = a;` reports the self-read error, records the read at distance 0, and leaves `a` defined |
| `ResolverProperties.OwnNameVisibleInBody` | jlox/lox/Resolver.java:129-135 | in a local function's body scope its own name resolves one scope up (0 when a parameter shadows it); for a global function it is left to the globals |
| `ResolverProperties.OwnNameInFunctionBody` | jlox/lox/Resolver.java:129-135 | `fun f(...) { f; }` declared by `VisitFunction` records the read of `f` one scope up in a local scope, at 0 when a parameter is called `f`, and not at all at global level |
| `ResolverProperties.ThisInMethodBody` | jlox/lox/Resolver.java:261-269 | in a method body's scope `this` resolves one scope up, past the parameter scope |
| `ResolverProperties.SuperInMethodBody` | jlox/lox/Resolver.java:256-269 | in a subclass's method body's scope `super` resolves two scopes up |
| `ResolverProperties.FunctionBodyInParamScope` | jlox/lox/Resolver.java:67-80 | a function body is resolved on the enclosing stack plus exactly the parameter scope, under the given function kind and the enclosing class kind |
| `ResolverProperties.ThisBoundInMethod` | jlox/lox/Resolver.java:239-281 | a class whose one method's body is `this;` records, after the superclass read, `this` at distance 1, whatever the superclass |
| `ResolverProperties.SuperBoundInSubclassMethod` | jlox/lox/Resolver.java:239-281 | a subclass whose one method's body is `super.m;` records, after the superclass read, `super` at distance 2 |
| `ResolverProperties.InitValueReturnReported` | jlox/lox/Resolver.java:264-269 | a class whose one method's body is `return v;` reports one initializer error iff the method is called `init`, and no top-level `return` error |
| `ResolverProperties.SuperWithoutSuperclassReported` | jlox/lox/Resolver.java:251-262 | a class whose one method's body is `super.m;` reports one no-superclass error iff it has no superclass, and never `super` outside a class |
| `ResolverProperties.BindUnderEmptyScope` | jlox/lox/Resolver.java:106-117 | looking nodes up with one more, empty, scope on the stack finds every binding one scope further away, in the same order, and leaves unbound nodes unbound |
| `ResolverProperties.BlockShiftsBindings` | jlox/lox/Resolver.java:115-121 | `{ e; }` records every node of `e` one scope further away than `e` records it outside the block, in the same order: a block pushes exactly one scope |
| `ResolverProperties.BlockReadOneFurther` | jlox/lox/Resolver.java:115-121 | for `{ a; }` that is the read of `a` at one more than its distance outside the block, or nothing when no scope holds `a` |
| `ResolverProperties.MethodsConcat` | jlox/lox/Resolver.java:264-270 | the methods are resolved one after another against the same state: two runs of methods append what the first run appends, then what the second appends, so no method's bindings or errors are dropped or reordered |
| `ResolverProperties.ProgramEndsAtGlobalLevel` | jlox/lox/Resolver.java:53-57 | resolving a program from the initial state ends with an empty stack and both kinds none |
| `ResolverProperties.LaterStatementsOnlyAppend` | jlox/lox/Resolver.java:53-57 | statements appended after a run only append to both outputs, so what the run recorded, including a function body's bindings, is never revised by later declarations |
| `ResolverProperties.SelfInheritanceReportedOnce` | jlox/lox/Resolver.java:247-249 | `class A < A {}` reports the self-inheritance error exactly once |
| `ResolverProperties.ExprDistancesInRange` | jlox/lox/Resolver.java:106-113 | every distance an expression records is below the stack depth and belongs to one of its reference nodes |

## Left out

- `Interpreter.resolve` and `Lox.error` are not part of this model. They are the two append-only outputs. A Java `HashMap` keyed by node would overwrite a second entry for the same node, but every node is visited once and carries its own identity, so a list loses nothing.
- Tokens: only the lexeme is kept. Line numbers, token types and the message text only feed the error report, so a `Diagnostic` keeps the kind of message and the lexeme.
- `Stack`, `HashMap` and the visitor classes are replaced by sequences, maps and `match` over datatypes.
- Operators, literal values and `Get`/`Set` property names are left out. The pass never resolves them.
- `clox/chunk.h` is not part of this model. It holds only declarations, and its behaviour lives in files not shown.
- Determinism of the pass is not stated as a lemma, because every member is a pure function.
- Resolver.ResolveStmt: states that the recorded entries are the statement's own reference nodes, none more often than it occurs. It does not give each statement's exact distances. Exact distances are stated for every expression (`ExprLocalsAreBindings`), for `var`, expression, `print` and `return` statements (`VisitVar`, `VisitExpressionStmt`, `VisitReturnStmt`), and for one-statement function and method bodies (`OwnNameInFunctionBody`, `ThisBoundInMethod`, `SuperBoundInSubclassMethod`).
- Resolver.ResolveStmt: its self-read count is stated only when every name in the innermost scope is defined on entry. That holds wherever a statement can start, because only a `var` initializer, which is an expression, runs with a name declared but not yet defined.
- Resolver.ResolveStmts: the same limits as `ResolveStmt`, for statement lists.
- Resolver.Resolve: the same limit on distances, for whole programs. Every kind of error is counted exactly.
- Resolver.ResolveFunction: recorded entries are stated as the body's own reference nodes, none more often than it occurs. That the body is resolved in the parameter scope is stated by `FunctionBodyInParamScope`.
- Resolver.ResolveMethods: the same limit on distances as `ResolveFunction`, for each body. `MethodsConcat` states that the bodies' outputs are appended in order, each method's in full.
- Resolver.ResolveClassBody: the same limit on distances; that the methods run inside the `this` and `super` scopes is stated by `ThisBoundInMethod` and `SuperBoundInSubclassMethod`.
- Resolver.ResolveClass: the same limit on distances as `ResolveClassBody`.
- Resolver.VisitBlock: the same limit on distances as `ResolveStmts`, for a block of any statements. `BlockShiftsBindings` states the exact distances for a block holding one expression statement. An exact statement-level statement for every block would need a second definition of the whole walk to compare against.
- Resolver.VisitFunction: the same limit on distances; that the name is declared before the body is stated by `OwnNameInFunctionBody`.
- Resolver.VisitIf: the condition's distances are exact. The branches have the same limit on distances as `ResolveStmt`, for the same reason as `VisitBlock`.
- Resolver.VisitWhile: the condition's distances are exact. The body has the same limit on distances as `ResolveStmt`, for the same reason as `VisitBlock`.
