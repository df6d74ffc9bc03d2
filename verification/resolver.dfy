/**
  The static resolution pass: one depth-first walk over the program that
  records, for every reference node bound on the scope stack, how many
  scopes up its binding lives, and collects the compile-time errors it
  finds without stopping.

  The walk is a family of pure functions. A statement takes the resolver's
  state (`Env`: the scope stack and the two context kinds) and returns the
  new state together with what it appended to the two outputs (`Output`:
  the recorded distances and the diagnostics). An expression never changes
  the state, so it returns only what it appended.
 */
module Resolver {
  import opened Ast
  import opened Scopes
  import opened Occurrences

  /** What kind of function body, if any, the walk is inside. */
  datatype FunctionType = NoFunction | PlainFunction | Initializer | Method

  /** What kind of class body, if any, the walk is inside. */
  datatype ClassType = NoClass | PlainClass | Subclass

  /** One kind per distinct message the pass reports. */
  datatype ErrorKind =
    | AlreadyDeclared
    | ReadInOwnInitializer
    | ReturnFromTopLevel
    | ReturnValueFromInitializer
    | ThisOutsideClass
    | SuperOutsideClass
    | SuperWithoutSuperclass
    | InheritsFromItself

  /** A reported error: its kind and the lexeme of the token it is reported at. */
  datatype Diagnostic = Diagnostic(kind: ErrorKind, lexeme: string)

  /** A recorded binding: the reference node and its distance in scopes. */
  datatype Local = Local(id: nat, depth: nat)

  /** What a piece of the walk appends to the two outputs, in order. */
  datatype Output = Output(locals: seq<Local>, errors: seq<Diagnostic>)
  {
    function Then(next: Output): Output
    {
      Output(locals + next.locals, errors + next.errors)
    }
  }

  const Nothing: Output := Output([], [])

  function Report(kind: ErrorKind, lexeme: string): Output
  {
    Output([], [Diagnostic(kind, lexeme)])
  }

  /** The resolver's mutable state: scope stack, function kind, class kind. */
  datatype Env = Env(scopes: seq<Scope>, fn: FunctionType, cls: ClassType)

  /** A statement's effect: the state it leaves and what it appended. */
  datatype Step = Step(env: Env, out: Output)

  const Initial: Env := Env([], NoFunction, NoClass)

  // ---------------------------------------------------------------------
  // Facts about diagnostic lists.
  // ---------------------------------------------------------------------

  function Count(errors: seq<Diagnostic>, kind: ErrorKind): nat
  {
    if errors == [] then 0
    else (if errors[0].kind == kind then 1 else 0) + Count(errors[1..], kind)
  }

  lemma {:induction false} CountConcat(a: seq<Diagnostic>, b: seq<Diagnostic>)
    ensures forall k :: Count(a + b, k) == Count(a, k) + Count(b, k)
    decreases |a|
  {
    if a == [] {
      assert a + b == b;
    } else {
      CountConcat(a[1..], b);
      assert (a + b)[0] == a[0] && (a + b)[1..] == a[1..] + b;
      forall k
        ensures Count(a + b, k) == Count(a, k) + Count(b, k)
      {
        assert Count(a + b, k) == (if a[0].kind == k then 1 else 0) + Count(a[1..] + b, k);
      }
    }
  }

  predicate Absent(errors: seq<Diagnostic>, kind: ErrorKind)
  {
    forall d :: d in errors ==> d.kind != kind
  }

  lemma {:induction false} AbsentCount(errors: seq<Diagnostic>, kind: ErrorKind)
    ensures Absent(errors, kind) <==> Count(errors, kind) == 0
    decreases |errors|
  {
    if errors != [] {
      AbsentCount(errors[1..], kind);
      assert forall d :: d in errors ==> d == errors[0] || d in errors[1..];
    }
  }

  /** A list of diagnostics all of one kind: that kind is counted once per entry, no other at all. */
  lemma {:induction false} CountAll(errors: seq<Diagnostic>, kind: ErrorKind)
    requires forall d :: d in errors ==> d.kind == kind
    ensures forall k :: Count(errors, k) == if k == kind then |errors| else 0
    decreases |errors|
  {
    if errors != [] {
      assert errors[0] in errors;
      assert forall d :: d in errors[1..] ==> d in errors;
      CountAll(errors[1..], kind);
    }
  }

  /** The only errors an expression can raise. */
  predicate IsExprError(kind: ErrorKind)
  {
    kind == ReadInOwnInitializer || kind == ThisOutsideClass
    || kind == SuperOutsideClass || kind == SuperWithoutSuperclass
  }

  /**
    What the context rules out among the errors an expression appends:
    only expression errors at all; nothing about `this` or `super` outside
    a class once inside one; no "no superclass" error except in a class
    without a superclass; no self-reference error when every name in the
    innermost scope is already defined.
   */
  predicate ExprErrorsAllowed(errors: seq<Diagnostic>, env: Env)
  {
    && (forall d :: d in errors ==> IsExprError(d.kind))
    && (env.cls != NoClass ==> Absent(errors, ThisOutsideClass) && Absent(errors, SuperOutsideClass))
    && (env.cls != PlainClass ==> Absent(errors, SuperWithoutSuperclass))
    && (AllDefined(env.scopes) ==> Absent(errors, ReadInOwnInitializer))
  }

  /**
    The six context-determined kinds of error in `errors` are exactly
    those the census `c` gives for the context `env`: a free `return` is
    an error outside every function, a free value return inside an
    initializer; a free `this` or `super` outside every class, a free
    `super` in a class without superclass; the other counts are decided
    by the tree already.
   */
  predicate Tallies(errors: seq<Diagnostic>, c: Census, env: Env)
  {
    && Count(errors, ReturnFromTopLevel) == (if env.fn == NoFunction then c.freeReturns else 0)
    && Count(errors, ReturnValueFromInitializer)
       == (if env.fn == Initializer then c.freeValueReturns else 0) + c.initValueReturns
    && Count(errors, ThisOutsideClass) == (if env.cls == NoClass then c.freeThis else 0)
    && Count(errors, SuperOutsideClass) == (if env.cls == NoClass then c.freeSuper else 0)
    && Count(errors, SuperWithoutSuperclass)
       == (if env.cls == PlainClass then c.freeSuper else 0) + c.plainSuper
    && Count(errors, InheritsFromItself) == c.selfInheriting
  }

  lemma TalliesConcat(a: seq<Diagnostic>, b: seq<Diagnostic>, c1: Census, c2: Census, env: Env)
    requires Tallies(a, c1, env) && Tallies(b, c2, env)
    ensures Tallies(a + b, c1.Plus(c2), env)
  {
    CountConcat(a, b);
  }

  /** Duplicate-declaration errors in front of some others change only the duplicate count. */
  lemma DeclarationsFirst(a: seq<Diagnostic>, b: seq<Diagnostic>, c: Census, env: Env)
    requires forall d :: d in a ==> d.kind == AlreadyDeclared
    requires Tallies(b, c, env)
    ensures Tallies(a + b, c, env)
    ensures Count(a + b, AlreadyDeclared) == |a| + Count(b, AlreadyDeclared)
    ensures Count(a + b, ReadInOwnInitializer) == Count(b, ReadInOwnInitializer)
  {
    CountAll(a, AlreadyDeclared);
    CountConcat(a, b);
  }

  /** The identities of recorded bindings, in order. */
  function LocalIds(locals: seq<Local>): seq<nat>
  {
    if locals == [] then [] else [locals[0].id] + LocalIds(locals[1..])
  }

  lemma {:induction false} LocalIdsConcat(a: seq<Local>, b: seq<Local>)
    ensures LocalIds(a + b) == LocalIds(a) + LocalIds(b)
    decreases |a|
  {
    if a == [] {
      assert a + b == b;
    } else {
      assert (a + b)[0] == a[0] && (a + b)[1..] == a[1..] + b;
      LocalIdsConcat(a[1..], b);
    }
  }

  /**
    Every recorded node is one of `refs`, and no node is recorded more
    often than it occurs in `refs`.
   */
  predicate LocalsFrom(locals: seq<Local>, refs: seq<VarRef>)
  {
    multiset(LocalIds(locals)) <= multiset(RefIds(refs))
  }

  lemma LocalsFromConcat(la: seq<Local>, ra: seq<VarRef>, lb: seq<Local>, rb: seq<VarRef>)
    requires LocalsFrom(la, ra) && LocalsFrom(lb, rb)
    ensures LocalsFrom(la + lb, ra + rb)
  {
    LocalIdsConcat(la, lb);
    RefIdsConcat(ra, rb);
  }

  lemma {:induction false} LocalIdsMembers(locals: seq<Local>)
    ensures forall l :: l in locals ==> l.id in LocalIds(locals)
    decreases |locals|
  {
    if locals != [] {
      LocalIdsMembers(locals[1..]);
      assert forall l :: l in locals ==> l == locals[0] || l in locals[1..];
    }
  }

  /** What `LocalsFrom` says about single entries and about the length. */
  lemma {:induction false} LocalsFromMembers(locals: seq<Local>, refs: seq<VarRef>)
    requires LocalsFrom(locals, refs)
    ensures forall l :: l in locals ==> l.id in RefIds(refs)
  {
    LocalIdsMembers(locals);
    forall l | l in locals
      ensures l.id in RefIds(refs)
    {
      assert l.id in multiset(LocalIds(locals));
    }
  }

  // ---------------------------------------------------------------------
  // Declaring, defining and looking up names.
  // ---------------------------------------------------------------------

  /**
    Reserves `name` in the innermost scope as declared but not yet defined,
    reporting a duplicate when the scope already holds it. At global level
    it does nothing.
   */
  function Declare(name: string, env: Env): (r: Step)
    ensures r.env.fn == env.fn && r.env.cls == env.cls && r.out.locals == []
    ensures |r.out.errors| <= 1
    ensures r.out.errors != [] <==> |env.scopes| > 0 && name in Top(env.scopes)
    ensures forall d :: d in r.out.errors ==> d == Diagnostic(AlreadyDeclared, name)
    ensures |r.env.scopes| == |env.scopes|
    ensures |env.scopes| > 0 ==>
              && Below(r.env.scopes) == Below(env.scopes)
              && Top(r.env.scopes).Keys == Top(env.scopes).Keys + {name}
              && !Top(r.env.scopes)[name]
              && forall k :: k in Top(env.scopes) && k != name ==> Top(r.env.scopes)[k] == Top(env.scopes)[k]
  {
    var errors := if |env.scopes| > 0 && name in Top(env.scopes) then Report(AlreadyDeclared, name) else Nothing;
    Step(env.(scopes := Put(env.scopes, name, false)), errors)
  }

  /** Marks `name` as defined in the innermost scope; nothing at global level. */
  function Define(name: string, env: Env): (r: Env)
    ensures r.fn == env.fn && r.cls == env.cls
    ensures |r.scopes| == |env.scopes|
    ensures |env.scopes| > 0 ==>
              && Below(r.scopes) == Below(env.scopes)
              && Top(r.scopes).Keys == Top(env.scopes).Keys + {name}
              && Top(r.scopes)[name]
              && forall k :: k in Top(env.scopes) && k != name ==> Top(r.scopes)[k] == Top(env.scopes)[k]
  {
    env.(scopes := Put(env.scopes, name, true))
  }

  lemma DeclareThenDefine(name: string, env: Env)
    ensures DeclaresOnly(env.scopes, Define(name, Declare(name, env).env).scopes, {name})
    ensures Define(name, Declare(name, env).env) == env.(scopes := Put(env.scopes, name, true))
  {
    if |env.scopes| > 0 {
      assert Top(env.scopes)[name := false][name := true] == Top(env.scopes)[name := true];
    }
  }

  /** Declares and at once defines `name`, as for functions and classes. */
  function DeclareDefine(name: string, env: Env): (r: Step)
    ensures r.env == env.(scopes := Put(env.scopes, name, true)) && r.out.locals == []
    ensures DeclaresOnly(env.scopes, r.env.scopes, {name})
    ensures |r.out.errors| <= 1
    ensures r.out.errors != [] <==> |env.scopes| > 0 && name in Top(env.scopes)
    ensures forall d :: d in r.out.errors ==> d == Diagnostic(AlreadyDeclared, name)
  {
    var d := Declare(name, env);
    DeclareThenDefine(name, env);
    Step(Define(name, d.env), d.out)
  }

  /** The names the innermost scope holds, `None` at global level. */
  function TopNamesOf(scopes: seq<Scope>): TopNames
  {
    if |scopes| > 0 then Some(Top(scopes).Keys) else None
  }

  lemma TopNamesAfter(before: seq<Scope>, after: seq<Scope>, names: set<string>)
    requires DeclaresOnly(before, after, names)
    ensures TopNamesOf(after) == Extend(TopNamesOf(before), names)
  {
  }

  /** A declaration's duplicate count is the one `Hit` gives for the innermost scope's names. */
  lemma DeclareHit(name: string, errors: seq<Diagnostic>, scopes: seq<Scope>)
    requires |errors| <= 1
    requires errors != [] <==> |scopes| > 0 && name in Top(scopes)
    requires forall d :: d in errors ==> d == Diagnostic(AlreadyDeclared, name)
    ensures |errors| == Hit(name, TopNamesOf(scopes))
    ensures forall d :: d in errors ==> d.kind == AlreadyDeclared
  {
  }

  /**
    Records the distance of the innermost scope holding `name`, if any;
    otherwise records nothing and the name is left to the global scope.
   */
  function ResolveLocal(id: nat, name: string, scopes: seq<Scope>): (r: seq<Local>)
    ensures |r| <= 1
    ensures r == [] <==> forall i :: 0 <= i < |scopes| ==> name !in scopes[i]
    ensures forall l :: l in r ==>
              && l.id == id && l.depth < |scopes|
              && name in scopes[|scopes| - 1 - l.depth]
              && forall j :: |scopes| - 1 - l.depth < j < |scopes| ==> name !in scopes[j]
  {
    match Lookup(scopes, name)
    case None => []
    case Some(d) => [Local(id, d)]
  }

  /** The bindings of a list of reference nodes against one fixed stack. */
  function Bind(refs: seq<VarRef>, scopes: seq<Scope>): seq<Local>
  {
    if refs == [] then [] else ResolveLocal(refs[0].id, refs[0].name, scopes) + Bind(refs[1..], scopes)
  }

  lemma {:induction false} BindConcat(a: seq<VarRef>, b: seq<VarRef>, scopes: seq<Scope>)
    ensures Bind(a + b, scopes) == Bind(a, scopes) + Bind(b, scopes)
    decreases |a|
  {
    if a == [] {
      assert a + b == b;
    } else {
      assert (a + b)[0] == a[0] && (a + b)[1..] == a[1..] + b;
      BindConcat(a[1..], b, scopes);
    }
  }

  /** Binding nodes records each of them at most once. */
  lemma {:induction false} LocalsBound(refs: seq<VarRef>, scopes: seq<Scope>)
    ensures LocalsFrom(Bind(refs, scopes), refs)
    decreases |refs|
  {
    if refs != [] {
      LocalsBound(refs[1..], scopes);
      var head := ResolveLocal(refs[0].id, refs[0].name, scopes);
      LocalIdsConcat(head, Bind(refs[1..], scopes));
      assert LocalIds(head) == [] || LocalIds(head) == [refs[0].id];
    }
  }

  // ---------------------------------------------------------------------
  // Expressions.
  // ---------------------------------------------------------------------

  /**
    A variable read. Reading a name that the innermost scope holds as
    declared but not yet defined is an error; the read is resolved anyway.
   */
  function VisitVariable(id: nat, name: string, env: Env): (o: Output)
    ensures o.locals == ResolveLocal(id, name, env.scopes)
    ensures o.errors != [] <==> |env.scopes| > 0 && name in Top(env.scopes) && !Top(env.scopes)[name]
    ensures forall d :: d in o.errors ==> d == Diagnostic(ReadInOwnInitializer, name)
    ensures |o.errors| <= 1
    ensures o.locals == Bind([VarRef(id, name)], env.scopes)
  {
    var errors :=
      if |env.scopes| > 0 && name in Top(env.scopes) && !Top(env.scopes)[name]
      then [Diagnostic(ReadInOwnInitializer, name)] else [];
    Output(ResolveLocal(id, name, env.scopes), errors)
  }

  /** `this`: an error outside any class, and resolved as a name either way. */
  function VisitThis(id: nat, env: Env): (o: Output)
    ensures o.locals == ResolveLocal(id, ThisLexeme, env.scopes)
    ensures o.errors != [] <==> env.cls == NoClass
    ensures forall d :: d in o.errors ==> d == Diagnostic(ThisOutsideClass, ThisLexeme)
    ensures |o.errors| <= 1
    ensures o.locals == Bind([VarRef(id, ThisLexeme)], env.scopes)
  {
    var errors := if env.cls == NoClass then [Diagnostic(ThisOutsideClass, ThisLexeme)] else [];
    Output(ResolveLocal(id, ThisLexeme, env.scopes), errors)
  }

  /**
    `super`: an error outside any class, a different error in a class with
    no superclass, and resolved as a name in every case.
   */
  function VisitSuper(id: nat, env: Env): (o: Output)
    ensures o.locals == ResolveLocal(id, SuperLexeme, env.scopes)
    ensures env.cls == NoClass ==> o.errors == [Diagnostic(SuperOutsideClass, SuperLexeme)]
    ensures env.cls == PlainClass ==> o.errors == [Diagnostic(SuperWithoutSuperclass, SuperLexeme)]
    ensures env.cls == Subclass ==> o.errors == []
    ensures o.locals == Bind([VarRef(id, SuperLexeme)], env.scopes)
  {
    var errors :=
      if env.cls == NoClass then [Diagnostic(SuperOutsideClass, SuperLexeme)]
      else if env.cls != Subclass then [Diagnostic(SuperWithoutSuperclass, SuperLexeme)]
      else [];
    Output(ResolveLocal(id, SuperLexeme, env.scopes), errors)
  }

  /** The target of an assignment: resolved as a name, with no self-reference check. */
  function VisitAssignTarget(id: nat, name: string, env: Env): (o: Output)
    ensures o.locals == ResolveLocal(id, name, env.scopes) && o.errors == []
    ensures o.locals == Bind([VarRef(id, name)], env.scopes)
  {
    Output(ResolveLocal(id, name, env.scopes), [])
  }

  /**
    Resolves an expression: every sub-expression in walk order, each
    reference node through `ResolveLocal`. The state is never changed.
   */
  function ResolveExpr(e: Expr, env: Env): (o: Output)
    decreases e
  {
    match e
    case Assign(id, name, value) =>
      // the value first, then the target; an assignment is no read, so no self-reference check
      ResolveExpr(value, env).Then(VisitAssignTarget(id, name, env))
    case Binary(left, right) => ResolveExpr(left, env).Then(ResolveExpr(right, env))
    case Call(callee, arguments) => ResolveExpr(callee, env).Then(ResolveExprs(arguments, env))
    case Get(obj, _) =>
      // the property name is looked up at run time, never here
      ResolveExpr(obj, env)
    case Grouping(inner) => ResolveExpr(inner, env)
    case Literal => Nothing
    case Logical(left, right) => ResolveExpr(left, env).Then(ResolveExpr(right, env))
    case Set(obj, _, value) => ResolveExpr(value, env).Then(ResolveExpr(obj, env))
    case Super(id, _) => VisitSuper(id, env)
    case This(id) => VisitThis(id, env)
    case Unary(right) => ResolveExpr(right, env)
    case Variable(id, name) => VisitVariable(id, name, env)
  }

  /** Resolves a list of expressions (call arguments) left to right. */
  function ResolveExprs(es: seq<Expr>, env: Env): (o: Output)
    decreases es
  {
    if es == [] then Nothing
    else ResolveExpr(es[0], env).Then(ResolveExprs(es[1..], env))
  }

  // How a compound expression's walk and reference nodes are made of its operands'.

  lemma AssignParts(id: nat, name: string, value: Expr, env: Env)
    ensures ResolveExpr(Assign(id, name, value), env) == ResolveExpr(value, env).Then(VisitAssignTarget(id, name, env))
    ensures ExprUses(Assign(id, name, value)) == ExprUses(value) + [Use(AssignTarget, VarRef(id, name))]
  {
  }

  lemma BinaryParts(left: Expr, right: Expr, env: Env)
    ensures ResolveExpr(Binary(left, right), env) == ResolveExpr(left, env).Then(ResolveExpr(right, env))
    ensures ExprUses(Binary(left, right)) == ExprUses(left) + ExprUses(right)
  {
  }

  lemma CallParts(callee: Expr, arguments: seq<Expr>, env: Env)
    ensures ResolveExpr(Call(callee, arguments), env) == ResolveExpr(callee, env).Then(ResolveExprs(arguments, env))
    ensures ExprUses(Call(callee, arguments)) == ExprUses(callee) + ExprsUses(arguments)
  {
  }

  lemma LogicalParts(left: Expr, right: Expr, env: Env)
    ensures ResolveExpr(Logical(left, right), env) == ResolveExpr(left, env).Then(ResolveExpr(right, env))
    ensures ExprUses(Logical(left, right)) == ExprUses(left) + ExprUses(right)
  {
    LogicalUses(left, right);
  }

  lemma SetParts(obj: Expr, property: string, value: Expr, env: Env)
    ensures ResolveExpr(Set(obj, property, value), env) == ResolveExpr(value, env).Then(ResolveExpr(obj, env))
    ensures ExprUses(Set(obj, property, value)) == ExprUses(value) + ExprUses(obj)
  {
    SetUses(obj, property, value);
  }

  /**
    The distances an expression records are exactly those of its reference
    nodes that have a binding on the stack, in walk order, each at the
    distance `Lookup` finds.
   */
  lemma {:induction false} ExprLocalsAreBindings(e: Expr, env: Env)
    ensures ResolveExpr(e, env).locals == Bind(ExprRefs(e), env.scopes)
    decreases e, 1
  {
    match e
    case Assign(id, name, value) => AssignLocals(id, name, value, env);
    case Binary(left, right) => BinaryLocals(left, right, env);
    case Call(callee, arguments) => CallLocals(callee, arguments, env);
    case Get(obj, _) =>
      ExprLocalsAreBindings(obj, env);
      InnerLocals(e, obj, env);
    case Grouping(inner) =>
      ExprLocalsAreBindings(inner, env);
      InnerLocals(e, inner, env);
    case Literal =>
    case Logical(left, right) => LogicalLocals(left, right, env);
    case Set(obj, property, value) => SetLocals(obj, property, value, env);
    case Super(id, _) => LeafLocals(e, env, Use(SuperUse, VarRef(id, SuperLexeme)));
    case This(id) => LeafLocals(e, env, Use(ThisUse, VarRef(id, ThisLexeme)));
    case Unary(right) =>
      ExprLocalsAreBindings(right, env);
      InnerLocals(e, right, env);
    case Variable(id, name) => LeafLocals(e, env, Use(Read, VarRef(id, name)));
  }

  lemma {:induction false} AssignLocals(id: nat, name: string, value: Expr, env: Env)
    ensures var e := Assign(id, name, value); ResolveExpr(e, env).locals == Bind(ExprRefs(e), env.scopes)
    decreases Assign(id, name, value), 0
  {
    var u := Use(AssignTarget, VarRef(id, name));
    ExprLocalsAreBindings(value, env);
    NodesSingle(u);
    AssignParts(id, name, value, env);
    NodesConcat(ExprUses(value), [u]);
    BindConcat(ExprRefs(value), [u.node], env.scopes);
  }

  lemma {:induction false} BinaryLocals(left: Expr, right: Expr, env: Env)
    ensures var e := Binary(left, right); ResolveExpr(e, env).locals == Bind(ExprRefs(e), env.scopes)
    decreases Binary(left, right), 0
  {
    ExprLocalsAreBindings(left, env);
    ExprLocalsAreBindings(right, env);
    BinaryParts(left, right, env);
    NodesConcat(ExprUses(left), ExprUses(right));
    BindConcat(Nodes(ExprUses(left)), Nodes(ExprUses(right)), env.scopes);
  }

  lemma {:induction false} CallLocals(callee: Expr, arguments: seq<Expr>, env: Env)
    ensures var e := Call(callee, arguments); ResolveExpr(e, env).locals == Bind(ExprRefs(e), env.scopes)
    decreases Call(callee, arguments), 0
  {
    ExprLocalsAreBindings(callee, env);
    ExprsLocalsAreBindings(arguments, env);
    CallParts(callee, arguments, env);
    NodesConcat(ExprUses(callee), ExprsUses(arguments));
    BindConcat(Nodes(ExprUses(callee)), Nodes(ExprsUses(arguments)), env.scopes);
  }

  lemma {:induction false} LogicalLocals(left: Expr, right: Expr, env: Env)
    ensures var e := Logical(left, right); ResolveExpr(e, env).locals == Bind(ExprRefs(e), env.scopes)
    decreases Logical(left, right), 0
  {
    ExprLocalsAreBindings(left, env);
    ExprLocalsAreBindings(right, env);
    LogicalParts(left, right, env);
    NodesConcat(ExprUses(left), ExprUses(right));
    BindConcat(Nodes(ExprUses(left)), Nodes(ExprUses(right)), env.scopes);
  }

  lemma {:induction false} SetLocals(obj: Expr, property: string, value: Expr, env: Env)
    ensures var e := Set(obj, property, value); ResolveExpr(e, env).locals == Bind(ExprRefs(e), env.scopes)
    decreases Set(obj, property, value), 0
  {
    ExprLocalsAreBindings(value, env);
    ExprLocalsAreBindings(obj, env);
    SetParts(obj, property, value, env);
    NodesConcat(ExprUses(value), ExprUses(obj));
    BindConcat(Nodes(ExprUses(value)), Nodes(ExprUses(obj)), env.scopes);
  }

  /** An expression walked as just its one operand records that operand's bindings. */
  lemma InnerLocals(e: Expr, inner: Expr, env: Env)
    requires ResolveExpr(e, env) == ResolveExpr(inner, env) && ExprUses(e) == ExprUses(inner)
    requires ResolveExpr(inner, env).locals == Bind(ExprRefs(inner), env.scopes)
    ensures ResolveExpr(e, env).locals == Bind(ExprRefs(e), env.scopes)
  {
  }

  /** An expression that is a single reference node records that node's binding. */
  lemma LeafLocals(e: Expr, env: Env, u: Use)
    requires ExprUses(e) == [u] && ResolveExpr(e, env).locals == Bind([u.node], env.scopes)
    ensures ResolveExpr(e, env).locals == Bind(ExprRefs(e), env.scopes)
  {
    NodesSingle(u);
  }

  lemma {:induction false} ExprsLocalsAreBindings(es: seq<Expr>, env: Env)
    ensures ResolveExprs(es, env).locals == Bind(ExprsRefs(es), env.scopes)
    decreases es, 2
  {
    if es != [] {
      ExprLocalsAreBindings(es[0], env);
      ExprsLocalsAreBindings(es[1..], env);
      NodesConcat(ExprUses(es[0]), ExprsUses(es[1..]));
      BindConcat(ExprRefs(es[0]), ExprsRefs(es[1..]), env.scopes);
    }
  }

  /** The check the walk makes at one reference node, by how the node uses its name. */
  function UseErrors(u: Use, env: Env): seq<Diagnostic>
  {
    match u.kind
    case Read => VisitVariable(u.node.id, u.node.name, env).errors
    case AssignTarget => VisitAssignTarget(u.node.id, u.node.name, env).errors
    case ThisUse => VisitThis(u.node.id, env).errors
    case SuperUse => VisitSuper(u.node.id, env).errors
  }

  /** The checks at a list of reference nodes, in order. */
  function Checks(uses: seq<Use>, env: Env): seq<Diagnostic>
  {
    if uses == [] then [] else UseErrors(uses[0], env) + Checks(uses[1..], env)
  }

  lemma {:induction false} ChecksConcat(a: seq<Use>, b: seq<Use>, env: Env)
    ensures Checks(a + b, env) == Checks(a, env) + Checks(b, env)
    decreases |a|
  {
    if a == [] {
      assert a + b == b;
    } else {
      assert (a + b)[0] == a[0] && (a + b)[1..] == a[1..] + b;
      ChecksConcat(a[1..], b, env);
    }
  }

  /**
    The errors an expression reports are exactly the checks at its
    reference nodes, in walk order: the compound expressions add none and
    drop none.
   */
  lemma {:induction false} ExprErrorsAreChecks(e: Expr, env: Env)
    ensures ResolveExpr(e, env).errors == Checks(ExprUses(e), env)
    decreases e, 1
  {
    match e
    case Assign(id, name, value) => AssignChecks(id, name, value, env);
    case Binary(left, right) => BinaryChecks(left, right, env);
    case Call(callee, arguments) => CallChecks(callee, arguments, env);
    case Get(obj, _) =>
      ExprErrorsAreChecks(obj, env);
      InnerChecks(e, obj, env);
    case Grouping(inner) =>
      ExprErrorsAreChecks(inner, env);
      InnerChecks(e, inner, env);
    case Literal =>
    case Logical(left, right) => LogicalChecks(left, right, env);
    case Set(obj, property, value) => SetChecks(obj, property, value, env);
    case Super(id, _) => LeafChecks(e, env, Use(SuperUse, VarRef(id, SuperLexeme)));
    case This(id) => LeafChecks(e, env, Use(ThisUse, VarRef(id, ThisLexeme)));
    case Unary(right) =>
      ExprErrorsAreChecks(right, env);
      InnerChecks(e, right, env);
    case Variable(id, name) => LeafChecks(e, env, Use(Read, VarRef(id, name)));
  }

  /** An expression walked as just its one operand makes that operand's checks. */
  lemma InnerChecks(e: Expr, inner: Expr, env: Env)
    requires ResolveExpr(e, env) == ResolveExpr(inner, env) && ExprUses(e) == ExprUses(inner)
    requires ResolveExpr(inner, env).errors == Checks(ExprUses(inner), env)
    ensures ResolveExpr(e, env).errors == Checks(ExprUses(e), env)
  {
  }

  /** An expression that is a single reference node makes that node's check. */
  lemma LeafChecks(e: Expr, env: Env, u: Use)
    requires ExprUses(e) == [u] && ResolveExpr(e, env).errors == UseErrors(u, env)
    ensures ResolveExpr(e, env).errors == Checks(ExprUses(e), env)
  {
    assert Checks([u], env) == UseErrors(u, env) + [];
  }

  lemma {:induction false} AssignChecks(id: nat, name: string, value: Expr, env: Env)
    ensures var e := Assign(id, name, value); ResolveExpr(e, env).errors == Checks(ExprUses(e), env)
    decreases Assign(id, name, value), 0
  {
    var u := Use(AssignTarget, VarRef(id, name));
    ExprErrorsAreChecks(value, env);
    assert Checks([u], env) == [] + [];
    AssignParts(id, name, value, env);
    ChecksConcat(ExprUses(value), [u], env);
  }

  lemma {:induction false} BinaryChecks(left: Expr, right: Expr, env: Env)
    ensures var e := Binary(left, right); ResolveExpr(e, env).errors == Checks(ExprUses(e), env)
    decreases Binary(left, right), 0
  {
    ExprErrorsAreChecks(left, env);
    ExprErrorsAreChecks(right, env);
    BinaryParts(left, right, env);
    ChecksConcat(ExprUses(left), ExprUses(right), env);
  }

  lemma {:induction false} CallChecks(callee: Expr, arguments: seq<Expr>, env: Env)
    ensures var e := Call(callee, arguments); ResolveExpr(e, env).errors == Checks(ExprUses(e), env)
    decreases Call(callee, arguments), 0
  {
    ExprErrorsAreChecks(callee, env);
    ExprsErrorsAreChecks(arguments, env);
    CallParts(callee, arguments, env);
    ChecksConcat(ExprUses(callee), ExprsUses(arguments), env);
  }

  lemma {:induction false} LogicalChecks(left: Expr, right: Expr, env: Env)
    ensures var e := Logical(left, right); ResolveExpr(e, env).errors == Checks(ExprUses(e), env)
    decreases Logical(left, right), 0
  {
    ExprErrorsAreChecks(left, env);
    ExprErrorsAreChecks(right, env);
    LogicalParts(left, right, env);
    ChecksConcat(ExprUses(left), ExprUses(right), env);
  }

  lemma {:induction false} SetChecks(obj: Expr, property: string, value: Expr, env: Env)
    ensures var e := Set(obj, property, value); ResolveExpr(e, env).errors == Checks(ExprUses(e), env)
    decreases Set(obj, property, value), 0
  {
    ExprErrorsAreChecks(value, env);
    ExprErrorsAreChecks(obj, env);
    SetParts(obj, property, value, env);
    ChecksConcat(ExprUses(value), ExprUses(obj), env);
  }

  lemma {:induction false} ExprsErrorsAreChecks(es: seq<Expr>, env: Env)
    ensures ResolveExprs(es, env).errors == Checks(ExprsUses(es), env)
    decreases es, 2
  {
    if es != [] {
      ExprErrorsAreChecks(es[0], env);
      ExprsErrorsAreChecks(es[1..], env);
      ChecksConcat(ExprUses(es[0]), ExprsUses(es[1..]), env);
    }
  }

  /** The reads among `uses` of a name the innermost scope holds as declared but not yet defined. */
  function FalseReads(uses: seq<Use>, scopes: seq<Scope>): nat
  {
    if uses == [] then 0
    else
      (if uses[0].kind == Read && |scopes| > 0 && uses[0].node.name in Top(scopes) && !Top(scopes)[uses[0].node.name]
       then 1 else 0)
      + FalseReads(uses[1..], scopes)
  }

  /**
    How many errors of each kind the checks at some reference nodes make:
    the `this`/`super` ones as the context decides for free nodes, one
    self-read per read of a declared-but-undefined name, nothing else.
   */
  lemma {:induction false} ChecksCounts(uses: seq<Use>, env: Env)
    ensures Tallies(Checks(uses, env), UsesCensus(uses), env)
    ensures Count(Checks(uses, env), AlreadyDeclared) == 0
    ensures Count(Checks(uses, env), ReadInOwnInitializer) == FalseReads(uses, env.scopes)
    decreases |uses|
  {
    if uses != [] {
      var head := UseErrors(uses[0], env);
      var rest := Checks(uses[1..], env);
      var c := UseCensus(uses[0]);
      assert Checks(uses, env) == head + rest;
      assert FalseReads(uses, env.scopes) == Count(head, ReadInOwnInitializer) + FalseReads(uses[1..], env.scopes) by {
        UseCounts(uses[0], env);
      }
      UseCounts(uses[0], env);
      ChecksCounts(uses[1..], env);
      TalliesConcat(head, rest, c, UsesCensus(uses[1..]), env);
      CountConcat(head, rest);
    }
  }

  /** The check at one reference node, counted by kind. */
  lemma UseCounts(u: Use, env: Env)
    ensures Tallies(UseErrors(u, env), UseCensus(u), env)
    ensures Count(UseErrors(u, env), AlreadyDeclared) == 0
    ensures Count(UseErrors(u, env), ReadInOwnInitializer)
            == if u.kind == Read && |env.scopes| > 0 && u.node.name in Top(env.scopes) && !Top(env.scopes)[u.node.name]
               then 1 else 0
  {
    var errors := UseErrors(u, env);
    match u.kind
    case Read => CountAll(errors, ReadInOwnInitializer);
    case AssignTarget =>
    case ThisUse => CountAll(errors, ThisOutsideClass);
    case SuperUse =>
      if env.cls == NoClass {
        CountAll(errors, SuperOutsideClass);
      } else if env.cls == PlainClass {
        CountAll(errors, SuperWithoutSuperclass);
      }
  }

  lemma {:induction false} FalseReadsDefined(uses: seq<Use>, scopes: seq<Scope>)
    requires AllDefined(scopes)
    ensures FalseReads(uses, scopes) == 0
    decreases |uses|
  {
    if uses != [] {
      FalseReadsDefined(uses[1..], scopes);
    }
  }

  /**
    An expression reports only expression errors, and only those its
    context allows: no `this` or `super` error inside a class, no "no
    superclass" error outside a class without one, no self-reference once
    every name in the innermost scope is defined.
   */
  lemma ExprErrorsAreAllowed(e: Expr, env: Env)
    ensures ExprErrorsAllowed(ResolveExpr(e, env).errors, env)
  {
    var uses := ExprUses(e);
    ExprErrorsAreChecks(e, env);
    ChecksCounts(uses, env);
    if AllDefined(env.scopes) {
      FalseReadsDefined(uses, env.scopes);
    }
    OnlyExprErrors(ResolveExpr(e, env).errors, UsesCensus(uses), env);
  }

  lemma OnlyExprErrors(errors: seq<Diagnostic>, c: Census, env: Env)
    requires Tallies(errors, c, env)
    requires c.freeReturns == 0 && c.freeValueReturns == 0 && c.initValueReturns == 0
    requires c.plainSuper == 0 && c.selfInheriting == 0
    requires Count(errors, AlreadyDeclared) == 0
    requires AllDefined(env.scopes) ==> Count(errors, ReadInOwnInitializer) == 0
    ensures ExprErrorsAllowed(errors, env)
  {
    AbsentCount(errors, AlreadyDeclared);
    AbsentCount(errors, ReturnFromTopLevel);
    AbsentCount(errors, ReturnValueFromInitializer);
    AbsentCount(errors, InheritsFromItself);
    AbsentCount(errors, ThisOutsideClass);
    AbsentCount(errors, SuperOutsideClass);
    AbsentCount(errors, SuperWithoutSuperclass);
    AbsentCount(errors, ReadInOwnInitializer);
    forall d | d in errors
      ensures IsExprError(d.kind)
    {
      if !IsExprError(d.kind) {
        assert !Absent(errors, d.kind);
      }
    }
  }

  /** Every recorded distance names a scope on the stack. */
  lemma {:induction false} BindDepths(refs: seq<VarRef>, scopes: seq<Scope>)
    ensures forall l :: l in Bind(refs, scopes) ==> l.depth < |scopes|
    decreases |refs|
  {
    if refs != [] {
      BindDepths(refs[1..], scopes);
    }
  }

  /**
    With only `name` declared but not yet defined in the innermost scope,
    the false reads are the reads of `name`; at global level there are none.
   */
  lemma {:induction false} FalseReadsDeclared(uses: seq<Use>, scopes: seq<Scope>, name: string)
    requires AllDefined(scopes)
    ensures FalseReads(uses, Put(scopes, name, false)) == if |scopes| > 0 then ReadsOf(uses, name) else 0
    decreases |uses|
  {
    if uses != [] {
      FalseReadsDeclared(uses[1..], scopes, name);
    }
  }

  /**
    The checks on a `return` keyword: an error at top level and, when a
    value is returned, an error inside an initializer.
   */
  function ReturnChecks(hasValue: bool, env: Env): (o: Output)
    ensures o.locals == []
    ensures Diagnostic(ReturnFromTopLevel, ReturnLexeme) in o.errors <==> env.fn == NoFunction
    ensures Diagnostic(ReturnValueFromInitializer, ReturnLexeme) in o.errors <==> hasValue && env.fn == Initializer
    ensures forall d :: d in o.errors ==>
              d.lexeme == ReturnLexeme && (d.kind == ReturnFromTopLevel || d.kind == ReturnValueFromInitializer)
    ensures Tallies(o.errors, Census(1, if hasValue then 1 else 0, 0, 0, 0, 0, 0), env)
    ensures Count(o.errors, AlreadyDeclared) == 0 && Count(o.errors, ReadInOwnInitializer) == 0
  {
    var top := if env.fn == NoFunction then [Diagnostic(ReturnFromTopLevel, ReturnLexeme)] else [];
    var init := if hasValue && env.fn == Initializer then [Diagnostic(ReturnValueFromInitializer, ReturnLexeme)] else [];
    CountAll(top, ReturnFromTopLevel);
    CountAll(init, ReturnValueFromInitializer);
    CountConcat(top, init);
    Output([], top + init)
  }

  /**
    `return`: the keyword checks, then the value when present; the value
    is resolved whether or not an error was reported.
   */
  function VisitReturn(value: Option<Expr>, env: Env): (o: Output)
    ensures !Absent(o.errors, ReturnFromTopLevel) <==> env.fn == NoFunction
    ensures !Absent(o.errors, ReturnValueFromInitializer) <==> value.Some? && env.fn == Initializer
    ensures o.locals == Bind(OptExprRefs(value), env.scopes)
    ensures o.errors == ReturnChecks(value.Some?, env).errors + Checks(OptExprUses(value), env)
  {
    var checks := ReturnChecks(value.Some?, env);
    var v :=
      match value
      case None => Nothing
      case Some(x) => ExprStep(x, env).out;
    ReturnValuePieces(value, env, checks, v);
    checks.Then(v)
  }

  lemma ReturnValuePieces(value: Option<Expr>, env: Env, checks: Output, v: Output)
    requires checks == ReturnChecks(value.Some?, env)
    requires v.locals == Bind(OptExprRefs(value), env.scopes) && v.errors == Checks(OptExprUses(value), env)
    ensures !Absent(checks.Then(v).errors, ReturnFromTopLevel) <==> env.fn == NoFunction
    ensures !Absent(checks.Then(v).errors, ReturnValueFromInitializer) <==> value.Some? && env.fn == Initializer
    ensures checks.Then(v).locals == Bind(OptExprRefs(value), env.scopes)
  {
    ChecksCounts(OptExprUses(value), env);
    AbsentCount(v.errors, ReturnFromTopLevel);
    AbsentCount(v.errors, ReturnValueFromInitializer);
    AbsentCount(checks.Then(v).errors, ReturnFromTopLevel);
    AbsentCount(checks.Then(v).errors, ReturnValueFromInitializer);
    AbsentCount(checks.errors, ReturnFromTopLevel);
    AbsentCount(checks.errors, ReturnValueFromInitializer);
  }

  // ---------------------------------------------------------------------
  // Functions and methods.
  // ---------------------------------------------------------------------

  /** The parameters of `params` are pairwise different. */
  predicate Distinct(params: seq<string>)
  {
    forall i, j :: 0 <= i < j < |params| ==> params[i] != params[j]
  }

  /** The scope a function body starts in: its parameters, all defined. */
  function ParamScope(params: seq<string>): Scope
  {
    map p | p in params :: true
  }

  /**
    Declares and defines each parameter in turn in the innermost scope,
    reporting each one the scope already holds.
   */
  function DeclareParams(params: seq<string>, env: Env): (r: Step)
    ensures r.env.fn == env.fn && r.env.cls == env.cls && r.out.locals == []
    ensures DeclaresOnly(env.scopes, r.env.scopes, Names(params))
    ensures forall d :: d in r.out.errors ==> d.kind == AlreadyDeclared && d.lexeme in params
    ensures |r.out.errors| == if |env.scopes| > 0 then ParamDups(params, Top(env.scopes).Keys) else 0
    decreases |params|
  {
    if params == [] then
      Step(env, Nothing)
    else
      var d := Declare(params[0], env);
      var rest := DeclareParams(params[1..], Define(params[0], d.env));
      DeclareParamsPieces(params, env, d, rest);
      Step(rest.env, d.out.Then(rest.out))
  }

  lemma DeclareParamsPieces(params: seq<string>, env: Env, d: Step, rest: Step)
    requires params != [] && d == Declare(params[0], env)
    requires rest.env.fn == env.fn && rest.env.cls == env.cls && rest.out.locals == []
    requires DeclaresOnly(Define(params[0], d.env).scopes, rest.env.scopes, Names(params[1..]))
    requires forall x :: x in rest.out.errors ==> x.kind == AlreadyDeclared && x.lexeme in params[1..]
    requires |rest.out.errors|
             == if |env.scopes| > 0 then ParamDups(params[1..], Top(Define(params[0], d.env).scopes).Keys) else 0
    ensures DeclaresOnly(env.scopes, rest.env.scopes, Names(params))
    ensures forall x :: x in d.out.Then(rest.out).errors ==> x.kind == AlreadyDeclared && x.lexeme in params
    ensures |d.out.Then(rest.out).errors| == if |env.scopes| > 0 then ParamDups(params, Top(env.scopes).Keys) else 0
  {
    DeclareThenDefine(params[0], env);
    assert Names(params) == {params[0]} + Names(params[1..]) by {
      assert forall p :: p in params <==> p == params[0] || p in params[1..];
    }
    DeclaresOnlyTrans(env.scopes, Define(params[0], d.env).scopes, rest.env.scopes, {params[0]}, Names(params[1..]));
    var seen := if |env.scopes| > 0 then Top(Define(params[0], d.env).scopes).Keys else {};
    DeclareParamsCount(params, env, d.out.errors, rest.out.errors, seen);
    assert d.out.Then(rest.out).errors == d.out.errors + rest.out.errors;
  }

  /** The duplicate-parameter errors: the first parameter's, then the others' against it. */
  lemma DeclareParamsCount(params: seq<string>, env: Env, de: seq<Diagnostic>, re: seq<Diagnostic>, seen: set<string>)
    requires params != []
    requires |de| <= 1 && (de != [] <==> |env.scopes| > 0 && params[0] in Top(env.scopes))
    requires forall x :: x in de ==> x == Diagnostic(AlreadyDeclared, params[0])
    requires |env.scopes| > 0 ==> seen == Top(env.scopes).Keys + {params[0]}
    requires forall x :: x in re ==> x.kind == AlreadyDeclared && x.lexeme in params[1..]
    requires |re| == if |env.scopes| > 0 then ParamDups(params[1..], seen) else 0
    ensures forall x :: x in de + re ==> x.kind == AlreadyDeclared && x.lexeme in params
    ensures |de + re| == if |env.scopes| > 0 then ParamDups(params, Top(env.scopes).Keys) else 0
  {
  }

  /**
    Declaring the parameters reports nothing exactly when they are pairwise
    different and none is already in the innermost scope; at global level
    it never reports.
   */
  lemma {:induction false} DeclareParamsErrors(params: seq<string>, env: Env)
    ensures |env.scopes| > 0 ==>
              (DeclareParams(params, env).out.errors == []
               <==> Distinct(params) && forall p :: p in params ==> p !in Top(env.scopes))
    ensures |env.scopes| == 0 ==> DeclareParams(params, env).out.errors == []
    decreases |params|
  {
    if params != [] {
      var d := Declare(params[0], env);
      var e := Define(params[0], d.env);
      DeclareParamsErrors(params[1..], e);
      DistinctCons(params);
    }
  }

  lemma DistinctCons(params: seq<string>)
    requires |params| > 0
    ensures Distinct(params) <==> params[0] !in params[1..] && Distinct(params[1..])
  {
    if params[0] !in params[1..] && Distinct(params[1..]) {
      forall i, j | 0 <= i < j < |params|
        ensures params[i] != params[j]
      {
        assert params[j] == params[1..][j - 1];
        if i > 0 {
          assert params[i] == params[1..][i - 1];
        }
      }
    }
    if Distinct(params) {
      forall i, j | 0 <= i < j < |params| - 1
        ensures params[1..][i] != params[1..][j]
      {
        assert params[1..][i] == params[i + 1] && params[1..][j] == params[j + 1];
      }
      forall j | 0 <= j < |params| - 1
        ensures params[1..][j] != params[0]
      {
        assert params[1..][j] == params[j + 1];
      }
    }
  }

  /** A scope with exactly the parameters as keys, all defined, is their parameter scope. */
  lemma ParamScopeOf(m: Scope, params: seq<string>)
    requires m.Keys == Names(params)
    requires forall n :: n in Names(params) ==> m[n]
    ensures m == ParamScope(params)
  {
  }

  /**
    Entering a function body: a fresh scope is pushed, the function kind is
    set, and each parameter is declared and defined in that scope.
   */
  function EnterFunction(decl: FunDecl, kind: FunctionType, env: Env): (r: Step)
    ensures r.env.fn == kind && r.env.cls == env.cls && r.out.locals == []
    ensures |r.env.scopes| == |env.scopes| + 1 && Below(r.env.scopes) == env.scopes
    ensures Top(r.env.scopes) == ParamScope(decl.params)
    ensures forall d :: d in r.out.errors ==> d.kind == AlreadyDeclared && d.lexeme in decl.params
    ensures r.out.errors == [] <==> Distinct(decl.params)
    ensures |r.out.errors| == ParamDups(decl.params, {})
  {
    var inner := Env(BeginScope(env.scopes), kind, env.cls);
    var p := DeclareParams(decl.params, inner);
    var none: set<string> := {};
    assert Top(inner.scopes).Keys == none;
    DeclareParamsErrors(decl.params, inner);
    ParamScopeOf(Top(p.env.scopes), decl.params);
    p
  }

  /**
    Resolves a function body in a fresh scope holding only its parameters,
    under function kind `kind`; the scope is popped and the enclosing kind
    restored afterwards, so the state is left exactly as found. The body's
    context-determined errors are those of kind `kind`; the duplicates are
    those among the parameters and those of the body against the
    parameters; every self-read in the body is reported.
   */
  function ResolveFunction(decl: FunDecl, kind: FunctionType, env: Env): (r: Step)
    ensures r.env == env
    ensures Tallies(r.out.errors, StmtsCensus(decl.body), env.(fn := kind))
    ensures Count(r.out.errors, AlreadyDeclared) == FunDups(decl)
    ensures Count(r.out.errors, ReadInOwnInitializer) == StmtsSelfReads(decl.body, true)
    ensures LocalsFrom(r.out.locals, StmtsRefs(decl.body))
    decreases decl, 0
  {
    var p := EnterFunction(decl, kind, env);
    var b := ResolveStmts(decl.body, p.env);
    var x := StmtsExpected(decl.body, TopNamesOf(p.env.scopes));
    FunctionPieces(decl, kind, env, p, b, x);
    FunctionBodyExpected(decl, TopNamesOf(p.env.scopes), x);
    Step(Env(EndScope(b.env.scopes), env.fn, b.env.cls), p.out.Then(b.out))
  }

  /** What the body of a function is expected to do, seen from the function. */
  lemma FunctionBodyExpected(decl: FunDecl, top: TopNames, x: Expected)
    requires top == Some(Names(decl.params)) && x == StmtsExpected(decl.body, top)
    ensures x.refs == StmtsRefs(decl.body) && x.census == StmtsCensus(decl.body)
    ensures ParamDups(decl.params, {}) + x.duplicates == FunDups(decl)
    ensures x.selfReads == StmtsSelfReads(decl.body, true)
  {
  }

  lemma FunctionPieces(decl: FunDecl, kind: FunctionType, env: Env, p: Step, b: Step, x: Expected)
    requires p.env.fn == kind && p.env.cls == env.cls && p.out.locals == []
    requires |p.env.scopes| == |env.scopes| + 1 && Below(p.env.scopes) == env.scopes
    requires Top(p.env.scopes) == ParamScope(decl.params)
    requires forall d :: d in p.out.errors ==> d.kind == AlreadyDeclared
    requires |p.out.errors| == ParamDups(decl.params, {})
    requires Effect(p.env, b, x)
    ensures TopNamesOf(p.env.scopes) == Some(Names(decl.params))
    ensures Env(EndScope(b.env.scopes), env.fn, b.env.cls) == env
    ensures Tallies(p.out.Then(b.out).errors, x.census, env.(fn := kind))
    ensures Count(p.out.Then(b.out).errors, AlreadyDeclared) == ParamDups(decl.params, {}) + x.duplicates
    ensures Count(p.out.Then(b.out).errors, ReadInOwnInitializer) == x.selfReads
    ensures LocalsFrom(p.out.Then(b.out).locals, x.refs)
  {
    assert EndScope(b.env.scopes) == Below(b.env.scopes) == env.scopes;
    ParamScopeFacts(decl.params);
    assert AllDefined(p.env.scopes);
    DeclarationsFirst(p.out.errors, b.out.errors, x.census, p.env);
    assert p.out.Then(b.out).locals == b.out.locals;
  }

  lemma ParamScopeFacts(params: seq<string>)
    ensures ParamScope(params).Keys == Names(params)
    ensures forall k :: k in ParamScope(params) ==> ParamScope(params)[k]
  {
  }

  /** What a plain function body's errors are, seen from outside the function. */
  lemma FunctionTallies(errors: seq<Diagnostic>, b: Census, inner: Env, env: Env)
    requires inner.fn == PlainFunction && inner.cls == env.cls
    requires Tallies(errors, b, inner)
    ensures Tallies(errors, InFunction(b), env)
  {
  }

  /** What a method body's errors are, seen from outside the method. */
  lemma MethodTallies(errors: seq<Diagnostic>, name: string, b: Census, inner: Env, env: Env)
    requires inner.fn == MethodKind(name) && inner.cls == env.cls
    requires Tallies(errors, b, inner)
    ensures Tallies(errors, InMethod(name, b), env)
  {
  }

  /** A method named `init` is an initializer; every other one a plain method. */
  function MethodKind(name: string): (k: FunctionType)
    ensures k == Initializer <==> name == InitName
    ensures k == Initializer || k == Method
  {
    if name == InitName then Initializer else Method
  }

  /**
    Resolves each method of a class body in turn, each under the kind its
    name gives it, so that exactly the value returns of `init` methods are
    reported as returns from an initializer.
   */
  function ResolveMethods(methods: seq<FunDecl>, env: Env): (r: Step)
    ensures r.env == env
    ensures Tallies(r.out.errors, MethodsCensus(methods), env)
    ensures Count(r.out.errors, AlreadyDeclared) == FunsDups(methods)
    ensures Count(r.out.errors, ReadInOwnInitializer) == FunsSelfReads(methods)
    ensures LocalsFrom(r.out.locals, FunsRefs(methods))
    decreases methods, 0
  {
    if methods == [] then
      Step(env, Nothing)
    else
      var f := ResolveFunction(methods[0], MethodKind(methods[0].name), env);
      var rest := ResolveMethods(methods[1..], f.env);
      MethodsPieces(methods, env, f, rest);
      Step(rest.env, f.out.Then(rest.out))
  }

  lemma MethodsPieces(methods: seq<FunDecl>, env: Env, f: Step, rest: Step)
    requires methods != []
    requires Tallies(f.out.errors, StmtsCensus(methods[0].body), env.(fn := MethodKind(methods[0].name)))
    requires Count(f.out.errors, AlreadyDeclared) == FunDups(methods[0])
    requires Count(f.out.errors, ReadInOwnInitializer) == StmtsSelfReads(methods[0].body, true)
    requires LocalsFrom(f.out.locals, StmtsRefs(methods[0].body))
    requires Tallies(rest.out.errors, MethodsCensus(methods[1..]), env)
    requires Count(rest.out.errors, AlreadyDeclared) == FunsDups(methods[1..])
    requires Count(rest.out.errors, ReadInOwnInitializer) == FunsSelfReads(methods[1..])
    requires LocalsFrom(rest.out.locals, FunsRefs(methods[1..]))
    ensures Tallies(f.out.Then(rest.out).errors, MethodsCensus(methods), env)
    ensures Count(f.out.Then(rest.out).errors, AlreadyDeclared) == FunsDups(methods)
    ensures Count(f.out.Then(rest.out).errors, ReadInOwnInitializer) == FunsSelfReads(methods)
    ensures LocalsFrom(f.out.Then(rest.out).locals, FunsRefs(methods))
  {
    var b := StmtsCensus(methods[0].body);
    assert Tallies(f.out.errors, InMethod(methods[0].name, b), env);
    TalliesConcat(f.out.errors, rest.out.errors, InMethod(methods[0].name, b), MethodsCensus(methods[1..]), env);
    LocalsFromConcat(f.out.locals, StmtsRefs(methods[0].body), rest.out.locals, FunsRefs(methods[1..]));
  }

  // ---------------------------------------------------------------------
  // Classes.
  // ---------------------------------------------------------------------

  /**
    The state a class's methods are resolved in: a scope binding `super`
    when there is a superclass, then a scope binding `this`.
   */
  function ClassBody(hasSuperclass: bool, env: Env): (r: Env)
    ensures r.fn == env.fn && r.cls == env.cls
    ensures |r.scopes| == |env.scopes| + (if hasSuperclass then 2 else 1)
    ensures r.scopes[..|env.scopes|] == env.scopes
    ensures Top(r.scopes) == map[ThisLexeme := true]
    ensures hasSuperclass ==> r.scopes[|env.scopes|] == map[SuperLexeme := true]
  {
    var outer := if hasSuperclass then Put(BeginScope(env.scopes), SuperLexeme, true) else env.scopes;
    var scopes := Put(BeginScope(outer), ThisLexeme, true);
    assert Top(scopes) == map[ThisLexeme := true];
    assert hasSuperclass ==> outer == env.scopes + [map[SuperLexeme := true]];
    assert scopes == outer + [map[ThisLexeme := true]];
    env.(scopes := scopes)
  }

  /**
    Resolves the methods inside the `super` and `this` scopes and pops
    both again, leaving the state as found.
   */
  function ResolveClassBody(hasSuperclass: bool, methods: seq<FunDecl>, env: Env): (r: Step)
    ensures r.env == env
    ensures Tallies(r.out.errors, MethodsCensus(methods), env)
    ensures Count(r.out.errors, AlreadyDeclared) == FunsDups(methods)
    ensures Count(r.out.errors, ReadInOwnInitializer) == FunsSelfReads(methods)
    ensures LocalsFrom(r.out.locals, FunsRefs(methods))
    decreases methods, 1
  {
    var body := ClassBody(hasSuperclass, env);
    var m := ResolveMethods(methods, body);
    var popThis := EndScope(m.env.scopes);
    var popSuper := if hasSuperclass then EndScope(popThis) else popThis;
    assert popSuper == env.scopes;
    Step(m.env.(scopes := popSuper), m.out)
  }

  /**
    The superclass reference, when present, is resolved as a variable read
    and changes no state; with every innermost name defined it never
    reports.
   */
  function ResolveSuperclass(superclass: Option<VarRef>, env: Env): (r: Step)
    ensures r.env == env
    ensures r.out.locals == Bind(SuperclassRefs(superclass), env.scopes)
    ensures AllDefined(env.scopes) ==> r.out.errors == []
    ensures Tallies(r.out.errors, NoNodes, env) && Count(r.out.errors, AlreadyDeclared) == 0
  {
    match superclass
    case None => Step(env, Nothing)
    case Some(s) =>
      var o := VisitVariable(s.id, s.name, env);
      CountAll(o.errors, ReadInOwnInitializer);
      Step(env, o)
  }

  /**
    A class declaration: its name is declared and defined in the enclosing
    scope; naming itself as superclass is an error; the superclass reference
    is resolved as a variable read under class kind "subclass"; the methods
    are resolved in the class body, under class kind "subclass" exactly
    when there is a superclass; the enclosing class kind is restored.
   */
  function ResolveClass(name: string, superclass: Option<VarRef>, methods: seq<FunDecl>, env: Env): (r: Step)
    ensures Effect(env, r, StmtExpected(Class(name, superclass, methods), TopNamesOf(env.scopes)))
    decreases methods, 2
  {
    var d := DeclareDefine(name, env.(cls := PlainClass));
    var selfError :=
      if superclass.Some? && name == superclass.value.name then Report(InheritsFromItself, superclass.value.name)
      else Nothing;
    var e2 := if superclass.Some? then d.env.(cls := Subclass) else d.env;
    var sup := ResolveSuperclass(superclass, e2);
    var m := ResolveClassBody(superclass.Some?, methods, sup.env);
    var x := Expected({}, FunsRefs(methods), MethodsCensus(methods), FunsDups(methods), FunsSelfReads(methods));
    var r := Step(m.env.(cls := env.cls), d.out.Then(selfError).Then(sup.out.Then(m.out)));
    ClassPieces(name, superclass, env, d, selfError, e2, sup, m, x);
    ClassEffect(name, superclass, methods, env, r, x);
    r
  }

  /** The effect of a class declaration, in the terms the statement's expected effect uses. */
  lemma ClassEffect(name: string, superclass: Option<VarRef>, methods: seq<FunDecl>, env: Env, r: Step, x: Expected)
    requires x == Expected({}, FunsRefs(methods), MethodsCensus(methods), FunsDups(methods), FunsSelfReads(methods))
    requires Effect(env, r, Expected({name}, SuperclassRefs(superclass) + x.refs, InClass(name, superclass, x.census),
                                     Hit(name, TopNamesOf(env.scopes)) + x.duplicates, x.selfReads))
    ensures Effect(env, r, StmtExpected(Class(name, superclass, methods), TopNamesOf(env.scopes)))
  {
    ClassExpected(name, superclass, methods, TopNamesOf(env.scopes));
  }

  /**
    The effects of the pieces of a class declaration add up to the
    declaration's, for any methods whose own effect is `x`.
   */
  lemma ClassPieces(name: string, superclass: Option<VarRef>, env: Env,
                    d: Step, selfError: Output, e2: Env, sup: Step, m: Step, x: Expected)
    requires d.env.fn == env.fn && d.env.cls == PlainClass && d.out.locals == []
    requires DeclaresOnly(env.scopes, d.env.scopes, {name})
    requires |d.out.errors| <= 1
    requires d.out.errors != [] <==> |env.scopes| > 0 && name in Top(env.scopes)
    requires forall e :: e in d.out.errors ==> e == Diagnostic(AlreadyDeclared, name)
    requires selfError ==
               if superclass.Some? && name == superclass.value.name then Report(InheritsFromItself, superclass.value.name)
               else Nothing
    requires e2 == d.env.(cls := if superclass.Some? then Subclass else PlainClass)
    requires sup.env == e2 && sup.out.locals == Bind(SuperclassRefs(superclass), e2.scopes)
    requires AllDefined(e2.scopes) ==> sup.out.errors == []
    requires Tallies(sup.out.errors, NoNodes, e2) && Count(sup.out.errors, AlreadyDeclared) == 0
    requires m.env == e2 && Tallies(m.out.errors, x.census, e2)
    requires x.census.freeReturns == 0 && x.census.freeValueReturns == 0
    requires Count(m.out.errors, AlreadyDeclared) == x.duplicates
    requires Count(m.out.errors, ReadInOwnInitializer) == x.selfReads
    requires LocalsFrom(m.out.locals, x.refs)
    ensures Effect(env, Step(m.env.(cls := env.cls), d.out.Then(selfError).Then(sup.out.Then(m.out))),
                   Expected({name}, SuperclassRefs(superclass) + x.refs, InClass(name, superclass, x.census),
                            Hit(name, TopNamesOf(env.scopes)) + x.duplicates, x.selfReads))
  {
    DeclareHit(name, d.out.errors, env.scopes);
    var allDefined := AllDefined(env.scopes);
    if allDefined {
      DeclaresOnlyAllDefined(env.scopes, d.env.scopes, {name});
    }
    ClassCounts(name, superclass, env, d.out.errors, selfError.errors, sup.out.errors, m.out.errors, e2, x.census,
                x.duplicates, x.selfReads, allDefined);
    assert d.out.Then(selfError).Then(sup.out.Then(m.out)).errors
           == d.out.errors + selfError.errors + (sup.out.errors + m.out.errors);
    LocalsBound(SuperclassRefs(superclass), e2.scopes);
    ClassLocals(d.out, selfError, sup.out, m.out, SuperclassRefs(superclass), x.refs);
  }

  /** The bindings of a class declaration: the superclass reference's, then the methods'. */
  lemma ClassLocals(a: Output, b: Output, c: Output, d: Output, refs: seq<VarRef>, more: seq<VarRef>)
    requires a.locals == [] && b.locals == []
    requires LocalsFrom(c.locals, refs) && LocalsFrom(d.locals, more)
    ensures LocalsFrom(a.Then(b).Then(c.Then(d)).locals, refs + more)
  {
    LocalsFromConcat(c.locals, refs, d.locals, more);
    NothingThen(a, b, c.Then(d));
  }

  /** Two outputs that record nothing leave the bindings after them as they are. */
  lemma NothingThen(a: Output, b: Output, c: Output)
    requires a.locals == [] && b.locals == []
    ensures a.Then(b).Then(c).locals == c.locals
  {
    assert a.Then(b).locals == [];
  }

  /** How the diagnostics of the pieces of a class declaration add up, kind by kind. */
  lemma ClassCounts(name: string, superclass: Option<VarRef>, env: Env, de: seq<Diagnostic>, se: seq<Diagnostic>,
                    sue: seq<Diagnostic>, me: seq<Diagnostic>, e2: Env, c: Census, dups: nat, selfReads: nat,
                    allDefined: bool)
    requires forall e :: e in de ==> e.kind == AlreadyDeclared
    requires se == if superclass.Some? && name == superclass.value.name
                   then [Diagnostic(InheritsFromItself, superclass.value.name)] else []
    requires e2.fn == env.fn && e2.cls == if superclass.Some? then Subclass else PlainClass
    requires Tallies(sue, NoNodes, e2) && Count(sue, AlreadyDeclared) == 0
    requires allDefined ==> sue == []
    requires Tallies(me, c, e2) && c.freeReturns == 0 && c.freeValueReturns == 0
    requires Count(me, AlreadyDeclared) == dups && Count(me, ReadInOwnInitializer) == selfReads
    ensures Tallies(de + se + (sue + me), InClass(name, superclass, c), env)
    ensures Count(de + se + (sue + me), AlreadyDeclared) == |de| + dups
    ensures allDefined ==> Count(de + se + (sue + me), ReadInOwnInitializer) == selfReads
  {
    TalliesConcat(sue, me, NoNodes, c, e2);
    assert NoNodes.Plus(c) == c;
    CountConcat(sue, me);
    ClassTallies(name, superclass, env, se, sue + me, c, e2);
    assert de + se + (sue + me) == de + (se + (sue + me));
    DeclarationsFirst(de, se + (sue + me), InClass(name, superclass, c), env);
  }

  /** The self-inheritance error in front of what the class body reports, seen from outside the class. */
  lemma ClassTallies(name: string, superclass: Option<VarRef>, env: Env, se: seq<Diagnostic>, b: seq<Diagnostic>,
                     c: Census, e2: Env)
    requires se == if superclass.Some? && name == superclass.value.name
                   then [Diagnostic(InheritsFromItself, superclass.value.name)] else []
    requires e2.fn == env.fn && e2.cls == if superclass.Some? then Subclass else PlainClass
    requires Tallies(b, c, e2) && c.freeReturns == 0 && c.freeValueReturns == 0
    ensures Tallies(se + b, InClass(name, superclass, c), env)
    ensures Count(se + b, AlreadyDeclared) == Count(b, AlreadyDeclared)
    ensures Count(se + b, ReadInOwnInitializer) == Count(b, ReadInOwnInitializer)
  {
    CountAll(se, InheritsFromItself);
    CountConcat(se, b);
  }

  // ---------------------------------------------------------------------
  // Statements.
  // ---------------------------------------------------------------------

  /**
    What resolving a statement (or a run of them) does, against what the
    tree says it should (`x`): the function and class kinds are as found;
    the stack has the same depth, every scope but the innermost is
    unchanged, and the innermost one only gained the declared names, all
    defined; the six context-determined kinds of error are those of the
    census; the duplicate declarations are as counted; when every
    innermost name is defined on entry, the self-reads are as counted;
    and only the tree's reference nodes are recorded, none more often
    than it occurs.
   */
  predicate Effect(env: Env, r: Step, x: Expected)
  {
    && r.env.fn == env.fn && r.env.cls == env.cls
    && DeclaresOnly(env.scopes, r.env.scopes, x.declared)
    && Tallies(r.out.errors, x.census, env)
    && Count(r.out.errors, AlreadyDeclared) == x.duplicates
    && (AllDefined(env.scopes) ==> Count(r.out.errors, ReadInOwnInitializer) == x.selfReads)
    && LocalsFrom(r.out.locals, x.refs)
  }

  /** Running one piece of the walk after another composes their effects. */
  lemma EffectThen(env: Env, a: Step, b: Step, x1: Expected, x2: Expected)
    requires Effect(env, a, x1)
    requires Effect(a.env, b, x2)
    ensures Effect(env, Step(b.env, a.out.Then(b.out)), x1.Plus(x2))
  {
    DeclaresOnlyTrans(env.scopes, a.env.scopes, b.env.scopes, x1.declared, x2.declared);
    CountConcat(a.out.errors, b.out.errors);
    TalliesConcat(a.out.errors, b.out.errors, x1.census, x2.census, env);
    if AllDefined(env.scopes) {
      DeclaresOnlyAllDefined(env.scopes, a.env.scopes, x1.declared);
    }
    LocalsFromConcat(a.out.locals, x1.refs, b.out.locals, x2.refs);
  }

  /** An expression resolved in statement position: the state is unchanged. */
  function ExprStep(e: Expr, env: Env): (r: Step)
    ensures r.env == env
    ensures r.out.locals == Bind(ExprRefs(e), env.scopes)
    ensures r.out.errors == Checks(ExprUses(e), env)
    ensures Effect(env, r, ExprExpected(e))
  {
    var o := ResolveExpr(e, env);
    ExprPieces(e, env, o);
    Step(env, o)
  }

  lemma ExprPieces(e: Expr, env: Env, o: Output)
    requires o == ResolveExpr(e, env)
    ensures o.locals == Bind(ExprRefs(e), env.scopes)
    ensures o.errors == Checks(ExprUses(e), env)
    ensures Effect(env, Step(env, o), ExprExpected(e))
  {
    ExprLocalsAreBindings(e, env);
    ExprErrorsAreChecks(e, env);
    ChecksCounts(ExprUses(e), env);
    if AllDefined(env.scopes) {
      FalseReadsDefined(ExprUses(e), env.scopes);
    }
    LocalsBound(ExprRefs(e), env.scopes);
    DeclaresOnlyNothing(env.scopes);
  }

  /** `{ ... }`: the statements are resolved in a scope of their own, popped afterwards. */
  function VisitBlock(statements: seq<Stmt>, env: Env): (r: Step)
    ensures r.env == env
    ensures Effect(env, r, StmtExpected(Block(statements), TopNamesOf(env.scopes)))
    decreases statements, 1
  {
    var inner := env.(scopes := BeginScope(env.scopes));
    var b := ResolveStmts(statements, inner);
    BlockPieces(statements, env, inner, b);
    Step(b.env.(scopes := EndScope(b.env.scopes)), b.out)
  }

  lemma BlockPieces(statements: seq<Stmt>, env: Env, inner: Env, b: Step)
    requires inner == env.(scopes := BeginScope(env.scopes))
    requires Effect(inner, b, StmtsExpected(statements, TopNamesOf(inner.scopes)))
    ensures b.env.(scopes := EndScope(b.env.scopes)) == env
    ensures Effect(env, Step(b.env.(scopes := EndScope(b.env.scopes)), b.out),
                   StmtExpected(Block(statements), TopNamesOf(env.scopes)))
  {
    var none: set<string> := {};
    assert Top(inner.scopes).Keys == none;
    assert TopNamesOf(inner.scopes) == Some(none);
    assert AllDefined(inner.scopes);
    BlockExpected(statements, TopNamesOf(env.scopes));
    assert EndScope(b.env.scopes) == Below(b.env.scopes);
  }

  /**
    `fun`: the name is declared and defined in the enclosing scope before
    the body is resolved, so that the body can call the function.
   */
  function VisitFunction(decl: FunDecl, env: Env): (r: Step)
    ensures Effect(env, r, StmtExpected(Function(decl), TopNamesOf(env.scopes)))
    decreases decl, 1
  {
    var d := DeclareDefine(decl.name, env);
    var f := ResolveFunction(decl, PlainFunction, d.env);
    var r := Step(f.env, d.out.Then(f.out));
    FunctionDeclPieces(decl, env, d, f);
    FunctionEffect(decl, env, r);
    r
  }

  lemma FunctionDeclPieces(decl: FunDecl, env: Env, d: Step, f: Step)
    requires d.env == env.(scopes := Put(env.scopes, decl.name, true)) && d.out.locals == []
    requires DeclaresOnly(env.scopes, d.env.scopes, {decl.name})
    requires |d.out.errors| <= 1
    requires d.out.errors != [] <==> |env.scopes| > 0 && decl.name in Top(env.scopes)
    requires forall e :: e in d.out.errors ==> e == Diagnostic(AlreadyDeclared, decl.name)
    requires f.env == d.env
    requires Tallies(f.out.errors, StmtsCensus(decl.body), d.env.(fn := PlainFunction))
    requires Count(f.out.errors, AlreadyDeclared) == FunDups(decl)
    requires Count(f.out.errors, ReadInOwnInitializer) == StmtsSelfReads(decl.body, true)
    requires LocalsFrom(f.out.locals, StmtsRefs(decl.body))
    ensures Effect(env, Step(f.env, d.out.Then(f.out)),
                   Expected({decl.name}, StmtsRefs(decl.body), InFunction(StmtsCensus(decl.body)),
                            Hit(decl.name, TopNamesOf(env.scopes)) + FunDups(decl), StmtsSelfReads(decl.body, true)))
  {
    DeclareHit(decl.name, d.out.errors, env.scopes);
    FunctionTallies(f.out.errors, StmtsCensus(decl.body), d.env.(fn := PlainFunction), env);
    DeclarationsFirst(d.out.errors, f.out.errors, InFunction(StmtsCensus(decl.body)), env);
    assert d.out.Then(f.out).errors == d.out.errors + f.out.errors;
    LocalsAfterNothing(d.out, f.out, StmtsRefs(decl.body));
  }

  /** The effect of a function declaration, in the terms the statement's expected effect uses. */
  lemma FunctionEffect(decl: FunDecl, env: Env, r: Step)
    requires Effect(env, r, Expected({decl.name}, StmtsRefs(decl.body), InFunction(StmtsCensus(decl.body)),
                                     Hit(decl.name, TopNamesOf(env.scopes)) + FunDups(decl),
                                     StmtsSelfReads(decl.body, true)))
    ensures Effect(env, r, StmtExpected(Function(decl), TopNamesOf(env.scopes)))
  {
    FunctionExpected(decl, TopNamesOf(env.scopes));
  }

  /** `if`: the condition, the then branch, and the else branch when present. */
  function VisitIf(condition: Expr, thenBranch: Stmt, elseBranch: Option<Stmt>, env: Env): (r: Step)
    ensures Effect(env, r, StmtExpected(If(condition, thenBranch, elseBranch), TopNamesOf(env.scopes)))
    ensures Bind(ExprRefs(condition), env.scopes) <= r.out.locals
    ensures Checks(ExprUses(condition), env) <= r.out.errors
    decreases If(condition, thenBranch, elseBranch), 1
  {
    var c := ExprStep(condition, env);
    var t := ResolveStmt(thenBranch, env);
    match elseBranch
    case None =>
      IfPieces(condition, thenBranch, env, c, t);
      OutputPrefix(c.out, t.out, Nothing);
      Step(t.env, c.out.Then(t.out))
    case Some(x) =>
      var el := ResolveStmt(x, t.env);
      IfElsePieces(condition, thenBranch, x, env, c, t, el);
      OutputPrefix(c.out, t.out, el.out);
      Step(el.env, c.out.Then(t.out).Then(el.out))
  }

  /** What a piece of the walk appends comes first in what it and later pieces append. */
  lemma OutputPrefix(a: Output, b: Output, c: Output)
    ensures a.locals <= a.Then(b).locals && a.errors <= a.Then(b).errors
    ensures a.locals <= a.Then(b).Then(c).locals && a.errors <= a.Then(b).Then(c).errors
  {
    assert a.Then(b).Then(c).locals == a.locals + (b.locals + c.locals);
    assert a.Then(b).Then(c).errors == a.errors + (b.errors + c.errors);
  }

  lemma IfPieces(condition: Expr, thenBranch: Stmt, env: Env, c: Step, t: Step)
    requires c.env == env && Effect(env, c, ExprExpected(condition))
    requires Effect(env, t, StmtExpected(thenBranch, TopNamesOf(env.scopes)))
    ensures Effect(env, Step(t.env, c.out.Then(t.out)),
                   StmtExpected(If(condition, thenBranch, None), TopNamesOf(env.scopes)))
  {
    var top := TopNamesOf(env.scopes);
    EffectThen(env, c, t, ExprExpected(condition), StmtExpected(thenBranch, top));
    IfExpected(condition, thenBranch, top);
  }

  lemma IfElsePieces(condition: Expr, thenBranch: Stmt, elseBranch: Stmt, env: Env, c: Step, t: Step, el: Step)
    requires c.env == env && Effect(env, c, ExprExpected(condition))
    requires Effect(env, t, StmtExpected(thenBranch, TopNamesOf(env.scopes)))
    requires Effect(t.env, el, StmtExpected(elseBranch, TopNamesOf(t.env.scopes)))
    ensures Effect(env, Step(el.env, c.out.Then(t.out).Then(el.out)),
                   StmtExpected(If(condition, thenBranch, Some(elseBranch)), TopNamesOf(env.scopes)))
  {
    var top := TopNamesOf(env.scopes);
    TopNamesAfter(env.scopes, t.env.scopes, DeclaredNames(thenBranch));
    var x1 := ExprExpected(condition).Plus(StmtExpected(thenBranch, top));
    EffectThen(env, c, t, ExprExpected(condition), StmtExpected(thenBranch, top));
    var ct := Step(t.env, c.out.Then(t.out));
    var x2 := StmtExpected(elseBranch, Extend(top, DeclaredNames(thenBranch)));
    EffectThen(env, ct, el, x1, x2);
    IfElseExpected(condition, thenBranch, elseBranch, top);
  }

  /** `while`: the condition, then the body, once each. */
  function VisitWhile(condition: Expr, body: Stmt, env: Env): (r: Step)
    ensures Effect(env, r, StmtExpected(While(condition, body), TopNamesOf(env.scopes)))
    ensures Bind(ExprRefs(condition), env.scopes) <= r.out.locals
    ensures Checks(ExprUses(condition), env) <= r.out.errors
    decreases While(condition, body), 1
  {
    var c := ExprStep(condition, env);
    var b := ResolveStmt(body, env);
    WhilePieces(condition, body, env, c, b);
    OutputPrefix(c.out, b.out, Nothing);
    Step(b.env, c.out.Then(b.out))
  }

  lemma WhilePieces(condition: Expr, body: Stmt, env: Env, c: Step, b: Step)
    requires c.env == env && Effect(env, c, ExprExpected(condition))
    requires Effect(env, b, StmtExpected(body, TopNamesOf(env.scopes)))
    ensures Effect(env, Step(b.env, c.out.Then(b.out)), StmtExpected(While(condition, body), TopNamesOf(env.scopes)))
  {
    var top := TopNamesOf(env.scopes);
    EffectThen(env, c, b, ExprExpected(condition), StmtExpected(body, top));
    WhileExpected(condition, body, top);
  }

  /**
    `var`: the name is declared before the initializer is resolved and
    defined only after it, so the initializer sees it as not yet defined:
    its reads of the name bind to the innermost scope and are reported.
   */
  function VisitVar(name: string, initializer: Option<Expr>, env: Env): (r: Step)
    ensures r.env == env.(scopes := Put(env.scopes, name, true))
    ensures r.out.locals == Bind(OptExprRefs(initializer), Put(env.scopes, name, false))
    ensures r.out.errors
            == (if |env.scopes| > 0 && name in Top(env.scopes) then [Diagnostic(AlreadyDeclared, name)] else [])
               + Checks(OptExprUses(initializer), env.(scopes := Put(env.scopes, name, false)))
    ensures Diagnostic(AlreadyDeclared, name) in r.out.errors <==> |env.scopes| > 0 && name in Top(env.scopes)
    ensures Effect(env, r, StmtExpected(Var(name, initializer), TopNamesOf(env.scopes)))
  {
    var d := Declare(name, env);
    var init :=
      match initializer
      case None => Nothing
      case Some(x) => ExprStep(x, d.env).out;
    VarPieces(name, initializer, env, d, init);
    VarEffect(name, initializer, env, Step(Define(name, d.env), d.out.Then(init)));
    Step(Define(name, d.env), d.out.Then(init))
  }

  lemma VarPieces(name: string, initializer: Option<Expr>, env: Env, d: Step, init: Output)
    requires d.env == env.(scopes := Put(env.scopes, name, false)) && d.out.locals == []
    requires d.out.errors
             == if |env.scopes| > 0 && name in Top(env.scopes) then [Diagnostic(AlreadyDeclared, name)] else []
    requires init.locals == Bind(OptExprRefs(initializer), d.env.scopes)
    requires init.errors == Checks(OptExprUses(initializer), d.env)
    ensures Define(name, d.env) == env.(scopes := Put(env.scopes, name, true))
    ensures Diagnostic(AlreadyDeclared, name) in d.out.Then(init).errors <==> |env.scopes| > 0 && name in Top(env.scopes)
    ensures var uses := OptExprUses(initializer);
            var top := TopNamesOf(env.scopes);
            Effect(env, Step(Define(name, d.env), d.out.Then(init)),
                   Expected({name}, OptExprRefs(initializer), UsesCensus(uses), Hit(name, top),
                            if top.Some? then ReadsOf(uses, name) else 0))
  {
    DeclareThenDefine(name, env);
    VarCounts(name, OptExprUses(initializer), env, d.out.errors, init.errors);
    assert d.out.Then(init).errors == d.out.errors + init.errors;
    LocalsBound(OptExprRefs(initializer), d.env.scopes);
    LocalsAfterNothing(d.out, init, OptExprRefs(initializer));
  }

  /** Output that records nothing in front of some bindings leaves them as they are. */
  lemma LocalsAfterNothing(a: Output, b: Output, refs: seq<VarRef>)
    requires a.locals == [] && LocalsFrom(b.locals, refs)
    ensures LocalsFrom(a.Then(b).locals, refs)
  {
    assert a.Then(b).locals == b.locals;
  }

  /** The diagnostics of a `var` statement, counted by kind. */
  lemma VarCounts(name: string, uses: seq<Use>, env: Env, de: seq<Diagnostic>, ie: seq<Diagnostic>)
    requires de == if |env.scopes| > 0 && name in Top(env.scopes) then [Diagnostic(AlreadyDeclared, name)] else []
    requires ie == Checks(uses, env.(scopes := Put(env.scopes, name, false)))
    ensures Diagnostic(AlreadyDeclared, name) in de + ie <==> |env.scopes| > 0 && name in Top(env.scopes)
    ensures Tallies(de + ie, UsesCensus(uses), env)
    ensures Count(de + ie, AlreadyDeclared) == Hit(name, TopNamesOf(env.scopes))
    ensures AllDefined(env.scopes) ==>
              Count(de + ie, ReadInOwnInitializer) == if |env.scopes| > 0 then ReadsOf(uses, name) else 0
  {
    var inner := env.(scopes := Put(env.scopes, name, false));
    ChecksCounts(uses, inner);
    assert Tallies(ie, UsesCensus(uses), env);
    AbsentCount(ie, AlreadyDeclared);
    DeclarationsFirst(de, ie, UsesCensus(uses), env);
    if AllDefined(env.scopes) {
      FalseReadsDeclared(uses, env.scopes, name);
    }
  }

  /** The effect of a `var` statement, in the terms the statement's expected effect uses. */
  lemma VarEffect(name: string, initializer: Option<Expr>, env: Env, r: Step)
    requires var uses := OptExprUses(initializer);
             var top := TopNamesOf(env.scopes);
             Effect(env, r, Expected({name}, OptExprRefs(initializer), UsesCensus(uses), Hit(name, top),
                                     if top.Some? then ReadsOf(uses, name) else 0))
    ensures Effect(env, r, StmtExpected(Var(name, initializer), TopNamesOf(env.scopes)))
  {
    VarExpected(name, initializer, TopNamesOf(env.scopes));
  }

  /** An expression statement or a `print`: the expression, in statement position. */
  function VisitExpressionStmt(s: Stmt, env: Env): (r: Step)
    requires s.Expression? || s.Print?
    ensures r.env == env
    ensures r.out.locals == Bind(ExprRefs(s.expression), env.scopes)
    ensures r.out.errors == Checks(ExprUses(s.expression), env)
    ensures Effect(env, r, StmtExpected(s, TopNamesOf(env.scopes)))
  {
    ExprStmtExpected(s, TopNamesOf(env.scopes));
    ExprStep(s.expression, env)
  }

  /** `return`, in statement position: the state is unchanged. */
  function VisitReturnStmt(value: Option<Expr>, env: Env): (r: Step)
    ensures r.env == env
    ensures r.out == VisitReturn(value, env)
    ensures Effect(env, r, StmtExpected(Return(value), TopNamesOf(env.scopes)))
  {
    var o := VisitReturn(value, env);
    ReturnPieces(value, env, o);
    Step(env, o)
  }

  lemma ReturnPieces(value: Option<Expr>, env: Env, o: Output)
    requires o.locals == Bind(OptExprRefs(value), env.scopes)
    requires o.errors == ReturnChecks(value.Some?, env).errors + Checks(OptExprUses(value), env)
    ensures Effect(env, Step(env, o), StmtExpected(Return(value), TopNamesOf(env.scopes)))
  {
    var uses := OptExprUses(value);
    ChecksCounts(uses, env);
    CountConcat(ReturnChecks(value.Some?, env).errors, Checks(uses, env));
    ReturnExpected(value, TopNamesOf(env.scopes));
    if AllDefined(env.scopes) {
      FalseReadsDefined(uses, env.scopes);
    }
    LocalsBound(OptExprRefs(value), env.scopes);
    DeclaresOnlyNothing(env.scopes);
  }

  /** Dispatches on the kind of statement. */
  function ResolveStmt(s: Stmt, env: Env): (r: Step)
    ensures Effect(env, r, StmtExpected(s, TopNamesOf(env.scopes)))
    decreases s, 2
  {
    match s
    case Block(statements) => VisitBlock(statements, env)
    case Class(name, superclass, methods) => ResolveClass(name, superclass, methods, env)
    case Expression(_) => VisitExpressionStmt(s, env)
    case Function(decl) => VisitFunction(decl, env)
    case If(condition, thenBranch, elseBranch) => VisitIf(condition, thenBranch, elseBranch, env)
    case Print(_) => VisitExpressionStmt(s, env)
    case Return(value) => VisitReturnStmt(value, env)
    case Var(name, initializer) => VisitVar(name, initializer, env)
    case While(condition, body) => VisitWhile(condition, body, env)
  }

  /** Resolves a list of statements in order, threading the state through. */
  function ResolveStmts(ss: seq<Stmt>, env: Env): (r: Step)
    ensures Effect(env, r, StmtsExpected(ss, TopNamesOf(env.scopes)))
    decreases ss, 0
  {
    if ss == [] then
      DeclaresOnlyNothing(env.scopes);
      Step(env, Nothing)
    else
      var first := ResolveStmt(ss[0], env);
      var rest := ResolveStmts(ss[1..], first.env);
      StmtsPieces(ss, env, first, rest);
      Step(rest.env, first.out.Then(rest.out))
  }

  lemma StmtsPieces(ss: seq<Stmt>, env: Env, first: Step, rest: Step)
    requires ss != []
    requires Effect(env, first, StmtExpected(ss[0], TopNamesOf(env.scopes)))
    requires Effect(first.env, rest, StmtsExpected(ss[1..], TopNamesOf(first.env.scopes)))
    ensures Effect(env, Step(rest.env, first.out.Then(rest.out)), StmtsExpected(ss, TopNamesOf(env.scopes)))
  {
    var top := TopNamesOf(env.scopes);
    TopNamesAfter(env.scopes, first.env.scopes, DeclaredNames(ss[0]));
    EffectThen(env, first, rest, StmtExpected(ss[0], top), StmtsExpected(ss[1..], TopNamesOf(first.env.scopes)));
    StmtsExpectedCons(ss, top);
  }

  /**
    Resolves a whole program from a fresh resolver: empty scope stack, no
    enclosing function or class. Every kind of error is reported exactly
    as often as the tree says: each free `return`, each value return in an
    `init` method, each free `this` and `super`, each `super` in a class
    without superclass, each self-inheriting class, each duplicate
    declaration in a local scope and each self-read in a local `var`.
   */
  function Resolve(program: seq<Stmt>): (o: Output)
    ensures Count(o.errors, ReturnFromTopLevel) == StmtsCensus(program).freeReturns
    ensures Count(o.errors, ReturnValueFromInitializer) == StmtsCensus(program).initValueReturns
    ensures Count(o.errors, ThisOutsideClass) == StmtsCensus(program).freeThis
    ensures Count(o.errors, SuperOutsideClass) == StmtsCensus(program).freeSuper
    ensures Count(o.errors, SuperWithoutSuperclass) == StmtsCensus(program).plainSuper
    ensures Count(o.errors, InheritsFromItself) == StmtsCensus(program).selfInheriting
    ensures Count(o.errors, AlreadyDeclared) == StmtsDups(program, None)
    ensures Count(o.errors, ReadInOwnInitializer) == StmtsSelfReads(program, false)
    ensures LocalsFrom(o.locals, StmtsRefs(program))
  {
    ResolveStmts(program, Initial).out
  }
}
