/**
  Properties of the resolution pass that relate several of its steps:
  how scope pushes shift distances, the two-phase `var` declaration, what
  a function body and a method body can see, that the pass starts and ends
  at global level, and that what a statement recorded is never revised by
  the statements after it.
 */
module ResolverProperties {
  import opened Ast
  import opened Scopes
  import opened Occurrences
  import opened Resolver

  /**
    Pushing a scope leaves every name it does not hold one scope further
    away, and makes the names it holds resolve to distance 0.
   */
  lemma {:induction false} LookupPush(scopes: seq<Scope>, s: Scope, name: string)
    ensures Lookup(scopes + [s], name)
            == if name in s then Some(0)
               else match Lookup(scopes, name) case None => None case Some(d) => Some(d + 1)
  {
    assert Below(scopes + [s]) == scopes;
    assert Top(scopes + [s]) == s;
  }

  /**
    The innermost scope decides when it holds the name; otherwise the
    search moves one scope out and the distance grows by one.
   */
  lemma {:induction false} LookupStep(scopes: seq<Scope>, name: string)
    requires |scopes| > 0
    ensures name in Top(scopes) ==> Lookup(scopes, name) == Some(0)
    ensures name !in Top(scopes) ==>
              Lookup(scopes, name)
              == match Lookup(Below(scopes), name) case None => None case Some(d) => Some(d + 1)
  {
  }

  /** A read of a name that is declared but not yet defined in the innermost scope. */
  lemma {:induction false} ReadOfDeclared(id: nat, name: string, env: Env)
    requires |env.scopes| > 0 && name in Top(env.scopes) && !Top(env.scopes)[name]
    ensures ResolveExpr(Variable(id, name), env) == Output([Local(id, 0)], [Diagnostic(ReadInOwnInitializer, name)])
  {
    LookupStep(env.scopes, name);
    var o := VisitVariable(id, name, env);
    assert o.errors == [Diagnostic(ReadInOwnInitializer, name)];
  }

  /**
    Inside a block, `var a = a;` reads the `a` it is declaring: the read is
    reported, still resolved to the innermost scope, and `a` ends up
    defined.
   */
  lemma {:induction false} SelfReadInInitializer(name: string, id: nat, env: Env)
    requires |env.scopes| > 0
    ensures var r := VisitVar(name, Some(Variable(id, name)), env);
            && Diagnostic(ReadInOwnInitializer, name) in r.out.errors
            && r.out.locals == [Local(id, 0)]
            && Top(r.env.scopes)[name]
  {
    var d := Declare(name, env);
    ReadOfDeclared(id, name, d.env);
    var v := ExprStep(Variable(id, name), d.env).out;
    assert v == Output([Local(id, 0)], [Diagnostic(ReadInOwnInitializer, name)]);
    var r := VisitVar(name, Some(Variable(id, name)), env);
    assert r == Step(Define(name, d.env), d.out.Then(v));
    assert d.out.locals == [];
    assert r.out.errors == d.out.errors + [Diagnostic(ReadInOwnInitializer, name)];
  }

  /**
    A function declared in a local scope sees its own name in its body:
    one scope up, in the enclosing scope, unless a parameter shadows it.
    A global function does not: its name is left to the globals.
   */
  lemma {:induction false} OwnNameVisibleInBody(decl: FunDecl, env: Env)
    ensures var body := EnterFunction(decl, PlainFunction, DeclareDefine(decl.name, env).env).env;
            Lookup(body.scopes, decl.name)
            == if decl.name in decl.params then Some(0)
               else if |env.scopes| > 0 then Some(1)
               else None
  {
    var e := DeclareDefine(decl.name, env).env;
    var body := EnterFunction(decl, PlainFunction, e).env;
    LookupStep(body.scopes, decl.name);
    assert decl.name in Top(body.scopes) <==> decl.name in decl.params;
    if |env.scopes| > 0 {
      assert decl.name in Top(e.scopes);
      LookupStep(e.scopes, decl.name);
    } else {
      assert e.scopes == [];
    }
  }

  /**
    In the body of a method, `this` is bound one scope up: the parameter
    scope is in between, unless a parameter is itself called `this`.
   */
  lemma {:induction false} ThisInMethodBody(decl: FunDecl, hasSuperclass: bool, env: Env)
    requires ThisLexeme !in decl.params
    ensures var body := EnterFunction(decl, MethodKind(decl.name), ClassBody(hasSuperclass, env)).env;
            Lookup(body.scopes, ThisLexeme) == Some(1)
  {
    var cb := ClassBody(hasSuperclass, env).scopes;
    var body := EnterFunction(decl, MethodKind(decl.name), ClassBody(hasSuperclass, env)).env.scopes;
    assert Top(body) == ParamScope(decl.params);
    LookupStep(body, ThisLexeme);
    assert Below(body) == cb;
    LookupStep(cb, ThisLexeme);
  }

  /**
    In the body of a subclass's method, `super` is bound two scopes up:
    past the parameter scope and the scope holding `this`.
   */
  lemma {:induction false} SuperInMethodBody(decl: FunDecl, env: Env)
    requires SuperLexeme !in decl.params
    ensures var body := EnterFunction(decl, MethodKind(decl.name), ClassBody(true, env)).env;
            Lookup(body.scopes, SuperLexeme) == Some(2)
  {
    var cb := ClassBody(true, env).scopes;
    var body := EnterFunction(decl, MethodKind(decl.name), ClassBody(true, env)).env.scopes;
    assert Top(body) == ParamScope(decl.params);
    LookupStep(body, SuperLexeme);
    assert Below(body) == cb;
    assert SuperLexeme !in Top(cb);
    LookupStep(cb, SuperLexeme);
    var outer := Below(cb);
    assert Top(outer) == map[SuperLexeme := true];
    LookupStep(outer, SuperLexeme);
  }

  /**
    A program is resolved from global level back to global level: the
    stack is empty and both kinds are "none" again at the end.
   */
  lemma {:induction false} ProgramEndsAtGlobalLevel(program: seq<Stmt>)
    ensures ResolveStmts(program, Initial).env == Initial
  {
  }

  /**
    What a run of statements records and reports is fixed once it has been
    resolved: appending more statements after it only appends to both
    outputs. In particular a function body's bindings are those of its
    definition site, whatever is declared later.
   */
  lemma {:induction false} LaterStatementsOnlyAppend(first: seq<Stmt>, later: seq<Stmt>, env: Env)
    ensures var a := ResolveStmts(first, env);
            ResolveStmts(first + later, env)
            == Step(ResolveStmts(later, a.env).env, a.out.Then(ResolveStmts(later, a.env).out))
    decreases |first|
  {
    if first == [] {
      assert first + later == later;
      ThenNothing(ResolveStmts(later, env).out);
    } else {
      assert (first + later)[0] == first[0];
      assert (first + later)[1..] == first[1..] + later;
      var s := ResolveStmt(first[0], env);
      var a1 := ResolveStmts(first[1..], s.env);
      var rest := ResolveStmts(later, a1.env);
      LaterStatementsOnlyAppend(first[1..], later, s.env);
      assert ResolveStmts(first, env) == Step(a1.env, s.out.Then(a1.out));
      assert ResolveStmts(first + later, env) == Step(rest.env, s.out.Then(a1.out.Then(rest.out)));
      ThenAssoc(s.out, a1.out, rest.out);
    }
  }

  lemma {:induction false} ThenNothing(o: Output)
    ensures Nothing.Then(o) == o
  {
    assert [] + o.locals == o.locals;
    assert [] + o.errors == o.errors;
  }

  lemma {:induction false} ThenAssoc(a: Output, b: Output, c: Output)
    ensures a.Then(b.Then(c)) == a.Then(b).Then(c)
  {
    assert a.locals + (b.locals + c.locals) == (a.locals + b.locals) + c.locals;
    assert a.errors + (b.errors + c.errors) == (a.errors + b.errors) + c.errors;
  }

  /** `class A < A {}` is reported as inheriting from itself exactly once. */
  lemma {:induction false} SelfInheritanceReportedOnce(name: string, id: nat, env: Env)
    ensures Count(ResolveClass(name, Some(VarRef(id, name)), [], env).out.errors, InheritsFromItself) == 1
  {
  }

  /** Every distance an expression records names a scope on the stack and one of the expression's nodes. */
  lemma {:induction false} ExprDistancesInRange(e: Expr, env: Env)
    ensures forall l :: l in ResolveExpr(e, env).locals ==>
              l.depth < |env.scopes| && l.id in RefIds(ExprRefs(e))
  {
    ExprLocalsAreBindings(e, env);
    BindDepths(ExprRefs(e), env.scopes);
    LocalsBound(ExprRefs(e), env.scopes);
    LocalsFromMembers(ResolveExpr(e, env).locals, ExprRefs(e));
  }

  // ---------------------------------------------------------------------
  // Function and class bodies, seen through the visitors.
  // ---------------------------------------------------------------------

  /**
    A function body is resolved in the enclosing stack plus one scope
    holding exactly the parameters, all defined, under the given function
    kind and the enclosing class kind; what the function appends is the
    parameters' duplicate errors followed by what the body appends.
   */
  lemma {:induction false} FunctionBodyInParamScope(decl: FunDecl, kind: FunctionType, env: Env)
    ensures var p := EnterFunction(decl, kind, env);
            && p.env == Env(env.scopes + [ParamScope(decl.params)], kind, env.cls)
            && ResolveFunction(decl, kind, env).out == p.out.Then(ResolveStmts(decl.body, p.env).out)
  {
    var p := EnterFunction(decl, kind, env);
    assert p.env.scopes == Below(p.env.scopes) + [Top(p.env.scopes)];
  }

  /** A one-statement body that is an expression appends what the expression appends. */
  lemma {:induction false} ExpressionBody(e: Expr, env: Env)
    ensures ResolveStmts([Expression(e)], env).out == ResolveExpr(e, env)
  {
    var ss := [Expression(e)];
    assert ss[0] == Expression(e) && ss[1..] == [];
    var first := ResolveStmt(ss[0], env);
    assert first.out == ResolveExpr(e, env);
    ThenNothingAfter(first.out);
  }

  lemma {:induction false} ThenNothingAfter(o: Output)
    ensures o.Then(Nothing) == o
  {
    assert o.locals + [] == o.locals;
    assert o.errors + [] == o.errors;
  }

  /**
    `fun f(...) { f; }`: the name is declared before the body is resolved,
    so the body's read of it binds one scope up, in the scope the function
    is declared in; a parameter of that name shadows it at distance 0; a
    global function's name is left to the globals.
   */
  lemma {:induction false} OwnNameInFunctionBody(decl: FunDecl, id: nat, env: Env)
    requires decl.body == [Expression(Variable(id, decl.name))]
    ensures VisitFunction(decl, env).out.locals
            == if decl.name in decl.params then [Local(id, 0)] else if |env.scopes| > 0 then [Local(id, 1)] else []
  {
    var d := DeclareDefine(decl.name, env);
    FunctionDeclOut(decl, env);
    FunctionBodyInParamScope(decl, PlainFunction, d.env);
    var p := EnterFunction(decl, PlainFunction, d.env);
    var e := Variable(id, decl.name);
    ExpressionBody(e, p.env);
    VariableOut(id, decl.name, p.env);
    OwnNameVisibleInBody(decl, env);
    NothingThenNothingThen(d.out, p.out, ResolveExpr(e, p.env));
  }

  lemma {:induction false} FunctionDeclOut(decl: FunDecl, env: Env)
    ensures VisitFunction(decl, env).out
            == DeclareDefine(decl.name, env).out.Then(ResolveFunction(decl, PlainFunction, DeclareDefine(decl.name, env).env).out)
  {
  }

  lemma {:induction false} VariableOut(id: nat, name: string, env: Env)
    ensures ResolveExpr(Variable(id, name), env).locals
            == match Lookup(env.scopes, name) case None => [] case Some(d) => [Local(id, d)]
  {
  }

  lemma {:induction false} NothingThenNothingThen(a: Output, b: Output, c: Output)
    requires a.locals == [] && b.locals == []
    ensures a.Then(b.Then(c)).locals == c.locals
  {
  }
  /**
    The methods of a class: after the class name, the self-inheritance
    check and the superclass read, each method is resolved inside the
    class body's scopes, under class kind "subclass" exactly when there is
    a superclass.
   */
  lemma {:induction false} ClassOut(name: string, superclass: Option<VarRef>, methods: seq<FunDecl>, env: Env)
    ensures var d := DeclareDefine(name, env.(cls := PlainClass));
            var e2 := if superclass.Some? then d.env.(cls := Subclass) else d.env;
            var selfError :=
              if superclass.Some? && name == superclass.value.name then Report(InheritsFromItself, superclass.value.name)
              else Nothing;
            ResolveClass(name, superclass, methods, env).out
            == d.out.Then(selfError).Then(ResolveSuperclass(superclass, e2).out.Then(
                 ResolveMethods(methods, ClassBody(superclass.Some?, e2)).out))
  {
  }

  lemma {:induction false} OneMethod(methods: seq<FunDecl>, env: Env)
    requires |methods| == 1
    ensures ResolveMethods(methods, env).out == ResolveFunction(methods[0], MethodKind(methods[0].name), env).out
  {
    assert methods[1..] == [];
    ThenNothingAfter(ResolveFunction(methods[0], MethodKind(methods[0].name), env).out);
  }

  lemma {:induction false} ThisOut(id: nat, env: Env)
    ensures ResolveExpr(This(id), env).locals
            == match Lookup(env.scopes, ThisLexeme) case None => [] case Some(d) => [Local(id, d)]
  {
  }

  lemma {:induction false} SuperOut(id: nat, member: string, env: Env)
    ensures ResolveExpr(Super(id, member), env).locals
            == match Lookup(env.scopes, SuperLexeme) case None => [] case Some(d) => [Local(id, d)]
  {
  }

  /** The bindings of a class whose name, self-inheritance check and parameters record nothing. */
  lemma {:induction false} ClassLocalsChain(a: Output, b: Output, c: Output, f: Output, g: Output)
    requires a.locals == [] && b.locals == [] && f.locals == []
    ensures a.Then(b).Then(c.Then(f.Then(g))).locals == c.locals + g.locals
  {
  }

  /**
    `this;` as the body of a method: `this` binds one scope up, past the
    parameter scope, to the scope the class body pushed, whatever the
    superclass; only the superclass read is recorded before it.
   */
  lemma {:induction false} ThisBoundInMethod(name: string, superclass: Option<VarRef>, methods: seq<FunDecl>, id: nat, env: Env)
    requires |methods| == 1 && methods[0].body == [Expression(This(id))] && ThisLexeme !in methods[0].params
    ensures ResolveClass(name, superclass, methods, env).out.locals
            == Bind(SuperclassRefs(superclass), Put(env.scopes, name, true)) + [Local(id, 1)]
  {
    var d := DeclareDefine(name, env.(cls := PlainClass));
    var e2 := if superclass.Some? then d.env.(cls := Subclass) else d.env;
    var body := ClassBody(superclass.Some?, e2);
    var decl := methods[0];
    ClassOut(name, superclass, methods, env);
    OneMethod(methods, body);
    FunctionBodyInParamScope(decl, MethodKind(decl.name), body);
    var p := EnterFunction(decl, MethodKind(decl.name), body);
    ExpressionBody(This(id), p.env);
    ThisOut(id, p.env);
    ThisInMethodBody(decl, superclass.Some?, e2);
    var selfError :=
      if superclass.Some? && name == superclass.value.name then Report(InheritsFromItself, superclass.value.name)
      else Nothing;
    ClassLocalsChain(d.out, selfError, ResolveSuperclass(superclass, e2).out, p.out, ResolveExpr(This(id), p.env));
  }

  /**
    `super.m;` as the body of a subclass's method: `super` binds two
    scopes up, past the parameter scope and the `this` scope, to the scope
    holding `super`.
   */
  lemma {:induction false} SuperBoundInSubclassMethod(name: string, superclass: VarRef, methods: seq<FunDecl>, id: nat, member: string,
                                   env: Env)
    requires |methods| == 1 && methods[0].body == [Expression(Super(id, member))]
    requires SuperLexeme !in methods[0].params
    ensures ResolveClass(name, Some(superclass), methods, env).out.locals
            == Bind([superclass], Put(env.scopes, name, true)) + [Local(id, 2)]
  {
    var d := DeclareDefine(name, env.(cls := PlainClass));
    var e2 := d.env.(cls := Subclass);
    var body := ClassBody(true, e2);
    var decl := methods[0];
    ClassOut(name, Some(superclass), methods, env);
    OneMethod(methods, body);
    FunctionBodyInParamScope(decl, MethodKind(decl.name), body);
    var p := EnterFunction(decl, MethodKind(decl.name), body);
    ExpressionBody(Super(id, member), p.env);
    SuperOut(id, member, p.env);
    SuperInMethodBody(decl, e2);
    var selfError := if name == superclass.name then Report(InheritsFromItself, superclass.name) else Nothing;
    ClassLocalsChain(d.out, selfError, ResolveSuperclass(Some(superclass), e2).out, p.out,
                     ResolveExpr(Super(id, member), p.env));
  }

  /** The census of a one-method class body, from the method's own. */
  lemma {:induction false} OneMethodCensus(methods: seq<FunDecl>)
    requires |methods| == 1
    ensures MethodsCensus(methods) == InMethod(methods[0].name, StmtsCensus(methods[0].body))
  {
    assert methods[1..] == [];
    PlusNoNodes(InMethod(methods[0].name, StmtsCensus(methods[0].body)));
  }

  /** The census of a one-statement body. */
  lemma {:induction false} OneStatementCensus(ss: seq<Stmt>)
    requires |ss| == 1
    ensures StmtsCensus(ss) == StmtCensus(ss[0])
  {
    assert ss[1..] == [];
    PlusNoNodes(StmtCensus(ss[0]));
  }

  lemma {:induction false} OneUseCensus(u: Use)
    ensures UsesCensus([u]) == UseCensus(u)
  {
    assert [u][1..] == [];
    PlusNoNodes(UseCensus(u));
  }

  lemma {:induction false} PlusNoNodes(c: Census)
    ensures c.Plus(NoNodes) == c
  {
  }

  /**
    `return v;` as the body of a method is reported as a value returned
    from an initializer exactly when the method is called `init`, and is
    never reported as a return from top-level code.
   */
  lemma {:induction false} InitValueReturnReported(name: string, superclass: Option<VarRef>, methods: seq<FunDecl>,
                                                   value: Expr, env: Env)
    requires |methods| == 1 && methods[0].body == [Return(Some(value))]
    ensures var errors := ResolveClass(name, superclass, methods, env).out.errors;
            && Count(errors, ReturnValueFromInitializer) == (if methods[0].name == InitName then 1 else 0)
            && Count(errors, ReturnFromTopLevel) == 0
  {
    ReturnMethodCensus(name, superclass, methods, value);
    var c := StmtCensus(Class(name, superclass, methods));
    var r := ResolveClass(name, superclass, methods, env);
    assert StmtExpected(Class(name, superclass, methods), TopNamesOf(env.scopes)).census == c;
    assert Tallies(r.out.errors, c, env);
  }

  /** The census of a class whose one method's body is `return v;`. */
  lemma {:induction false} ReturnMethodCensus(name: string, superclass: Option<VarRef>, methods: seq<FunDecl>,
                                              value: Expr)
    requires |methods| == 1 && methods[0].body == [Return(Some(value))]
    ensures var c := StmtCensus(Class(name, superclass, methods));
            && c.initValueReturns == (if methods[0].name == InitName then 1 else 0)
            && c.freeReturns == 0 && c.freeValueReturns == 0
  {
    var body := methods[0].body;
    OneStatementCensus(body);
    assert body[0] == Return(Some(value));
    ReturnExpected(Some(value), None);
    OneMethodCensus(methods);
    ClassCensus(name, superclass, methods);
  }

  /**
    `super.m;` as the body of a method is reported as "no superclass"
    exactly when the class has no superclass, and never as `super` outside
    a class.
   */
  lemma {:induction false} SuperWithoutSuperclassReported(name: string, superclass: Option<VarRef>,
                                                          methods: seq<FunDecl>, id: nat, member: string, env: Env)
    requires |methods| == 1 && methods[0].body == [Expression(Super(id, member))]
    ensures var errors := ResolveClass(name, superclass, methods, env).out.errors;
            && Count(errors, SuperWithoutSuperclass) == (if superclass.None? then 1 else 0)
            && Count(errors, SuperOutsideClass) == 0
  {
    SuperMethodCensus(name, superclass, methods, id, member);
    var c := StmtCensus(Class(name, superclass, methods));
    var r := ResolveClass(name, superclass, methods, env);
    assert StmtExpected(Class(name, superclass, methods), TopNamesOf(env.scopes)).census == c;
    assert Tallies(r.out.errors, c, env);
  }

  /** The census of a class whose one method's body is `super.m;`. */
  lemma {:induction false} SuperMethodCensus(name: string, superclass: Option<VarRef>, methods: seq<FunDecl>, id: nat,
                                             member: string)
    requires |methods| == 1 && methods[0].body == [Expression(Super(id, member))]
    ensures var c := StmtCensus(Class(name, superclass, methods));
            c.plainSuper == (if superclass.None? then 1 else 0) && c.freeSuper == 0
  {
    var body := methods[0].body;
    OneStatementCensus(body);
    assert body[0] == Expression(Super(id, member));
    ExpressionCensus(Super(id, member));
    var u := Use(SuperUse, VarRef(id, SuperLexeme));
    SuperUses(id, member);
    OneUseCensus(u);
    OneMethodCensus(methods);
    ClassCensus(name, superclass, methods);
  }

  lemma {:induction false} ExpressionCensus(e: Expr)
    ensures StmtCensus(Expression(e)) == UsesCensus(ExprUses(e))
  {
    ExprStmtExpected(Expression(e), None);
  }

  lemma {:induction false} SuperUses(id: nat, member: string)
    ensures ExprUses(Super(id, member)) == [Use(SuperUse, VarRef(id, SuperLexeme))]
  {
  }

  lemma {:induction false} ClassCensus(name: string, superclass: Option<VarRef>, methods: seq<FunDecl>)
    ensures StmtCensus(Class(name, superclass, methods)) == InClass(name, superclass, MethodsCensus(methods))
  {
    ClassExpected(name, superclass, methods, None);
  }

  // ---------------------------------------------------------------------
  // Blocks and method lists.
  // ---------------------------------------------------------------------

  /** The same bindings in the same order, each one scope further away. */
  function Deeper(locals: seq<Local>): seq<Local>
  {
    if locals == [] then [] else [Local(locals[0].id, locals[0].depth + 1)] + Deeper(locals[1..])
  }

  lemma {:induction false} DeeperConcat(a: seq<Local>, b: seq<Local>)
    ensures Deeper(a + b) == Deeper(a) + Deeper(b)
    decreases |a|
  {
    if a == [] {
      assert a + b == b;
    } else {
      assert (a + b)[0] == a[0] && (a + b)[1..] == a[1..] + b;
      DeeperConcat(a[1..], b);
    }
  }

  /**
    Looking nodes up with one more, empty, scope on the stack finds every
    binding one scope further away, and leaves unbound nodes unbound.
   */
  lemma {:induction false} BindUnderEmptyScope(refs: seq<VarRef>, scopes: seq<Scope>)
    ensures Bind(refs, BeginScope(scopes)) == Deeper(Bind(refs, scopes))
    decreases |refs|
  {
    if refs != [] {
      BindUnderEmptyScope(refs[1..], scopes);
      LookupPush(scopes, map[], refs[0].name);
      DeeperConcat(ResolveLocal(refs[0].id, refs[0].name, scopes), Bind(refs[1..], scopes));
    }
  }

  /**
    `{ e; }`: a block pushes exactly one scope, empty when its statement
    declares nothing, so every node of `e` binds one scope further away
    than it would outside the block, in the same order.
   */
  lemma {:induction false} BlockShiftsBindings(ss: seq<Stmt>, e: Expr, env: Env)
    requires ss == [Expression(e)]
    ensures VisitBlock(ss, env).out.locals == Deeper(ResolveExpr(e, env).locals)
  {
    var inner := env.(scopes := BeginScope(env.scopes));
    assert VisitBlock(ss, env).out == ResolveStmts(ss, inner).out;
    ExpressionBody(e, inner);
    ExprLocalsAreBindings(e, inner);
    ExprLocalsAreBindings(e, env);
    BindUnderEmptyScope(ExprRefs(e), env.scopes);
  }

  /**
    What `BlockShiftsBindings` gives for `{ a; }`: the read binds one scope
    further away than outside the block, or not at all.
   */
  lemma {:induction false} BlockReadOneFurther(id: nat, name: string, env: Env)
    ensures Deeper(ResolveExpr(Variable(id, name), env).locals)
            == match Lookup(env.scopes, name) case None => [] case Some(d) => [Local(id, d + 1)]
  {
    VariableOut(id, name, env);
    DeeperFound(id, Lookup(env.scopes, name), ResolveExpr(Variable(id, name), env).locals);
  }

  /** One binding found at `d`, or none, shifted one scope further away. */
  lemma {:induction false} DeeperFound(id: nat, l: Option<nat>, locals: seq<Local>)
    requires locals == match l case None => [] case Some(d) => [Local(id, d)]
    ensures Deeper(locals) == match l case None => [] case Some(d) => [Local(id, d + 1)]
  {
    if l.Some? {
      assert locals[1..] == [];
    }
  }

  /**
    The methods of a class body are resolved one after another, each
    against the same state: resolving two runs of methods appends what the
    first run appends, then what the second appends.
   */
  lemma {:induction false} MethodsConcat(ms1: seq<FunDecl>, ms2: seq<FunDecl>, env: Env)
    ensures ResolveMethods(ms1 + ms2, env).out == ResolveMethods(ms1, env).out.Then(ResolveMethods(ms2, env).out)
    decreases |ms1|
  {
    if ms1 == [] {
      assert ms1 + ms2 == ms2;
      ThenNothing(ResolveMethods(ms2, env).out);
    } else {
      var ms := ms1 + ms2;
      assert ms[0] == ms1[0] && ms[1..] == ms1[1..] + ms2;
      var f := ResolveFunction(ms1[0], MethodKind(ms1[0].name), env);
      MethodsConcat(ms1[1..], ms2, env);
      assert ResolveMethods(ms, env).out == f.out.Then(ResolveMethods(ms1[1..] + ms2, env).out);
      assert ResolveMethods(ms1, env).out == f.out.Then(ResolveMethods(ms1[1..], env).out);
      ThenAssoc(f.out, ResolveMethods(ms1[1..], env).out, ResolveMethods(ms2, env).out);
    }
  }
}
