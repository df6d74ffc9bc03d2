/**
  What the tree alone says about the errors the resolution pass reports.

  Six of the eight kinds of error depend only on where a node sits: a
  `return` outside every function body, a value returned from a method
  called `init`, `this` or `super` outside every class, `super` in a class
  without a superclass, a class naming itself as superclass. A `Census`
  counts those nodes, leaving open only what the enclosing context decides
  (a statement does not know whether it is itself inside a function or a
  class). The other two kinds depend on the names in scope, which for a
  statement is only the innermost scope's names: `Dups` and `SelfReads`
  count them from those names and the tree.
 */
module Occurrences {
  import opened Ast

  /**
    The context-sensitive nodes of a tree. "Free" means not inside any
    function body (returns) or any class body (`this`, `super`): the
    enclosing context decides whether those are errors. The other counts
    are already decided by the tree.
   */
  datatype Census = Census(
    freeReturns: nat,       // `return` statements outside every function body
    freeValueReturns: nat,  // the ones among them that return a value
    initValueReturns: nat,  // value returns whose nearest enclosing function is a method named `init`
    freeThis: nat,          // `this` outside every class body
    freeSuper: nat,         // `super` outside every class body
    plainSuper: nat,        // `super` whose nearest enclosing class has no superclass
    selfInheriting: nat)    // classes naming themselves as their superclass
  {
    function Plus(o: Census): Census
    {
      Census(freeReturns + o.freeReturns, freeValueReturns + o.freeValueReturns,
             initValueReturns + o.initValueReturns, freeThis + o.freeThis, freeSuper + o.freeSuper,
             plainSuper + o.plainSuper, selfInheriting + o.selfInheriting)
    }
  }

  const NoNodes: Census := Census(0, 0, 0, 0, 0, 0, 0)

  /** A single reference node: a `this` or a `super` is free, since an expression has no body. */
  function UseCensus(u: Use): Census
  {
    Census(0, 0, 0, if u.kind == ThisUse then 1 else 0, if u.kind == SuperUse then 1 else 0, 0, 0)
  }

  /** The `this` and `super` nodes among an expression's reference nodes. */
  function UsesCensus(uses: seq<Use>): (c: Census)
    ensures c.freeReturns == 0 && c.freeValueReturns == 0 && c.initValueReturns == 0
    ensures c.plainSuper == 0 && c.selfInheriting == 0
    ensures c.freeThis + c.freeSuper <= |uses|
  {
    if uses == [] then NoNodes else UseCensus(uses[0]).Plus(UsesCensus(uses[1..]))
  }

  /** A body's census seen from outside a plain function: its returns are no longer free. */
  function InFunction(b: Census): Census
  {
    Census(0, 0, b.initValueReturns, b.freeThis, b.freeSuper, b.plainSuper, b.selfInheriting)
  }

  /**
    A body's census seen from outside a method: its returns are no longer
    free, and its value returns count as initializer returns when the
    method is called `init`.
   */
  function InMethod(name: string, b: Census): Census
  {
    Census(0, 0, (if name == InitName then b.freeValueReturns else 0) + b.initValueReturns,
           b.freeThis, b.freeSuper, b.plainSuper, b.selfInheriting)
  }

  /**
    The methods' census seen from outside their class: `this` and `super`
    are no longer free, and a free `super` is a "no superclass" one when
    the class has no superclass.
   */
  function InClass(name: string, superclass: Option<VarRef>, m: Census): Census
  {
    Census(0, 0, m.initValueReturns, 0, 0,
           (if superclass.None? then m.freeSuper else 0) + m.plainSuper,
           (if superclass.Some? && superclass.value.name == name then 1 else 0) + m.selfInheriting)
  }

  function StmtCensus(s: Stmt): Census
    decreases s
  {
    match s
    case Block(statements) => StmtsCensus(statements)
    case Class(name, superclass, methods) => InClass(name, superclass, MethodsCensus(methods))
    case Expression(e) => UsesCensus(ExprUses(e))
    case Function(decl) => InFunction(StmtsCensus(decl.body))
    case If(c, t, el) =>
      UsesCensus(ExprUses(c)).Plus(StmtCensus(t)).Plus(match el case None => NoNodes case Some(x) => StmtCensus(x))
    case Print(e) => UsesCensus(ExprUses(e))
    case Return(value) =>
      var u := UsesCensus(OptExprUses(value));
      Census(1, if value.Some? then 1 else 0, 0, u.freeThis, u.freeSuper, 0, 0)
    case Var(_, init) => UsesCensus(OptExprUses(init))
    case While(c, body) => UsesCensus(ExprUses(c)).Plus(StmtCensus(body))
  }

  function StmtsCensus(ss: seq<Stmt>): Census
    decreases ss
  {
    if ss == [] then NoNodes else StmtCensus(ss[0]).Plus(StmtsCensus(ss[1..]))
  }

  /** The methods of a class, each body seen from outside its method; no return is free any more. */
  function MethodsCensus(fs: seq<FunDecl>): (c: Census)
    ensures c.freeReturns == 0 && c.freeValueReturns == 0
    decreases fs
  {
    if fs == [] then NoNodes else InMethod(fs[0].name, StmtsCensus(fs[0].body)).Plus(MethodsCensus(fs[1..]))
  }

  // ---------------------------------------------------------------------
  // Duplicate declarations.
  // ---------------------------------------------------------------------

  /**
    The names the innermost scope holds when a statement is resolved;
    `None` at global level, where nothing is declared in a scope.
   */
  type TopNames = Option<set<string>>

  /** One duplicate when `name` is declared in a scope that already holds it. */
  function Hit(name: string, top: TopNames): nat
  {
    if top.Some? && name in top.value then 1 else 0
  }

  /** The innermost scope's names after `names` were declared in it. */
  function Extend(top: TopNames, names: set<string>): TopNames
  {
    match top
    case None => None
    case Some(n) => Some(n + names)
  }

  /** Duplicates among parameters declared in turn into a scope that already holds `seen`. */
  function ParamDups(params: seq<string>, seen: set<string>): nat
    decreases |params|
  {
    if params == [] then 0
    else (if params[0] in seen then 1 else 0) + ParamDups(params[1..], seen + {params[0]})
  }

  /**
    The duplicate declarations a statement makes when resolved with the
    innermost scope holding `top`: its own declarations against that scope,
    and those in nested blocks and bodies against theirs. A block starts
    from an empty scope; a function body shares its scope with the
    parameters.
   */
  function Dups(s: Stmt, top: TopNames): nat
    decreases s, 1
  {
    match s
    case Block(statements) => StmtsDups(statements, Some({}))
    case Class(name, _, methods) => Hit(name, top) + FunsDups(methods)
    case Function(decl) => Hit(decl.name, top) + FunDups(decl)
    case If(_, t, el) =>
      Dups(t, top) + (match el case None => 0 case Some(x) => Dups(x, Extend(top, DeclaredNames(t))))
    case Var(name, _) => Hit(name, top)
    case While(_, body) => Dups(body, top)
    case _ => 0
  }

  function StmtsDups(ss: seq<Stmt>, top: TopNames): nat
    decreases ss, 0
  {
    if ss == [] then 0 else Dups(ss[0], top) + StmtsDups(ss[1..], Extend(top, DeclaredNames(ss[0])))
  }

  /** The duplicates of a function: among its parameters, then in its body against them. */
  function FunDups(decl: FunDecl): nat
    decreases decl, 0
  {
    ParamDups(decl.params, {}) + StmtsDups(decl.body, Some(Names(decl.params)))
  }

  function FunsDups(fs: seq<FunDecl>): nat
    decreases fs, 0
  {
    if fs == [] then 0 else FunDups(fs[0]) + FunsDups(fs[1..])
  }

  // ---------------------------------------------------------------------
  // Reads of a variable in its own initializer.
  // ---------------------------------------------------------------------

  /**
    The reads of a variable inside its own initializer, for `var`
    statements resolved in a local scope (`local`); at global level there
    is none, and every block and body is local.
   */
  function SelfReads(s: Stmt, local: bool): nat
    decreases s
  {
    match s
    case Block(statements) => StmtsSelfReads(statements, true)
    case Class(_, _, methods) => FunsSelfReads(methods)
    case Function(decl) => StmtsSelfReads(decl.body, true)
    case If(_, t, el) => SelfReads(t, local) + (match el case None => 0 case Some(x) => SelfReads(x, local))
    case Var(name, init) => if local then ReadsOf(OptExprUses(init), name) else 0
    case While(_, body) => SelfReads(body, local)
    case _ => 0
  }

  function StmtsSelfReads(ss: seq<Stmt>, local: bool): nat
    decreases ss
  {
    if ss == [] then 0 else SelfReads(ss[0], local) + StmtsSelfReads(ss[1..], local)
  }

  function FunsSelfReads(fs: seq<FunDecl>): nat
    decreases fs
  {
    if fs == [] then 0 else StmtsSelfReads(fs[0].body, true) + FunsSelfReads(fs[1..])
  }

  // ---------------------------------------------------------------------
  // Everything a statement's resolution is expected to do, in one value.
  // ---------------------------------------------------------------------

  /**
    The names declared in the current scope, the reference nodes, the
    census, the duplicate declarations and the self-reads of a piece of
    the tree.
   */
  datatype Expected = Expected(declared: set<string>, refs: seq<VarRef>, census: Census,
                               duplicates: nat, selfReads: nat)
  {
    function Plus(o: Expected): Expected
    {
      Expected(declared + o.declared, refs + o.refs, census.Plus(o.census),
               duplicates + o.duplicates, selfReads + o.selfReads)
    }
  }

  function ExprExpected(e: Expr): Expected
  {
    Expected({}, ExprRefs(e), UsesCensus(ExprUses(e)), 0, 0)
  }

  function StmtExpected(s: Stmt, top: TopNames): Expected
  {
    Expected(DeclaredNames(s), StmtRefs(s), StmtCensus(s), Dups(s, top), SelfReads(s, top.Some?))
  }

  function StmtsExpected(ss: seq<Stmt>, top: TopNames): Expected
  {
    Expected(StmtsDeclaredNames(ss), StmtsRefs(ss), StmtsCensus(ss), StmtsDups(ss, top), StmtsSelfReads(ss, top.Some?))
  }

  // How the expectation of a compound statement is made of its parts'.

  lemma StmtsExpectedCons(ss: seq<Stmt>, top: TopNames)
    requires ss != []
    ensures StmtsExpected(ss, top)
            == StmtExpected(ss[0], top).Plus(StmtsExpected(ss[1..], Extend(top, DeclaredNames(ss[0]))))
  {
  }

  lemma BlockExpected(ss: seq<Stmt>, top: TopNames)
    ensures StmtExpected(Block(ss), top) == StmtsExpected(ss, Some({})).(declared := {})
  {
  }

  lemma IfExpected(c: Expr, t: Stmt, top: TopNames)
    ensures StmtExpected(If(c, t, None), top) == ExprExpected(c).Plus(StmtExpected(t, top))
  {
    assert ExprRefs(c) + StmtRefs(t) + [] == ExprRefs(c) + StmtRefs(t);
  }

  lemma IfElseExpected(c: Expr, t: Stmt, el: Stmt, top: TopNames)
    ensures StmtExpected(If(c, t, Some(el)), top)
            == ExprExpected(c).Plus(StmtExpected(t, top)).Plus(StmtExpected(el, Extend(top, DeclaredNames(t))))
  {
    IfElseNodes(c, t, el, top);
    IfElseCounts(c, t, el, top);
  }

  lemma IfElseNodes(c: Expr, t: Stmt, el: Stmt, top: TopNames)
    ensures var x := ExprExpected(c).Plus(StmtExpected(t, top)).Plus(StmtExpected(el, Extend(top, DeclaredNames(t))));
            x.declared == DeclaredNames(If(c, t, Some(el))) && x.refs == StmtRefs(If(c, t, Some(el)))
  {
  }

  lemma IfElseCounts(c: Expr, t: Stmt, el: Stmt, top: TopNames)
    ensures var x := ExprExpected(c).Plus(StmtExpected(t, top)).Plus(StmtExpected(el, Extend(top, DeclaredNames(t))));
            && x.census == StmtCensus(If(c, t, Some(el)))
            && x.duplicates == Dups(If(c, t, Some(el)), top)
            && x.selfReads == SelfReads(If(c, t, Some(el)), top.Some?)
  {
    var later := Extend(top, DeclaredNames(t));
    assert later.Some? == top.Some?;
    var s := If(c, t, Some(el));
    assert Dups(s, top) == Dups(t, top) + Dups(el, later);
    assert SelfReads(s, top.Some?) == SelfReads(t, top.Some?) + SelfReads(el, later.Some?);
  }

  lemma WhileExpected(c: Expr, body: Stmt, top: TopNames)
    ensures StmtExpected(While(c, body), top) == ExprExpected(c).Plus(StmtExpected(body, top))
  {
    var s := While(c, body);
    var x := ExprExpected(c).Plus(StmtExpected(body, top));
    assert x.declared == DeclaredNames(s);
    assert x.refs == StmtRefs(s);
    assert x.census == StmtCensus(s);
    assert x.duplicates == Dups(s, top);
    assert x.selfReads == SelfReads(s, top.Some?);
  }

  lemma ExprStmtExpected(s: Stmt, top: TopNames)
    requires s.Expression? || s.Print?
    ensures StmtExpected(s, top) == ExprExpected(s.expression)
  {
  }

  lemma ReturnExpected(value: Option<Expr>, top: TopNames)
    ensures var u := UsesCensus(OptExprUses(value));
            StmtExpected(Return(value), top)
            == Expected({}, OptExprRefs(value), Census(1, if value.Some? then 1 else 0, 0, u.freeThis, u.freeSuper, 0, 0), 0, 0)
  {
    var s := Return(value);
    assert DeclaredNames(s) == {};
    assert StmtRefs(s) == OptExprRefs(value);
    assert Dups(s, top) == 0;
    assert SelfReads(s, top.Some?) == 0;
  }

  lemma VarExpected(name: string, init: Option<Expr>, top: TopNames)
    ensures StmtExpected(Var(name, init), top)
            == Expected({name}, OptExprRefs(init), UsesCensus(OptExprUses(init)), Hit(name, top),
                        if top.Some? then ReadsOf(OptExprUses(init), name) else 0)
  {
    var s := Var(name, init);
    assert DeclaredNames(s) == {name};
    assert StmtRefs(s) == OptExprRefs(init);
    assert StmtCensus(s) == UsesCensus(OptExprUses(init));
    assert Dups(s, top) == Hit(name, top);
    assert SelfReads(s, top.Some?) == if top.Some? then ReadsOf(OptExprUses(init), name) else 0;
  }

  lemma FunctionExpected(decl: FunDecl, top: TopNames)
    ensures StmtExpected(Function(decl), top)
            == Expected({decl.name}, StmtsRefs(decl.body), InFunction(StmtsCensus(decl.body)),
                        Hit(decl.name, top) + FunDups(decl), StmtsSelfReads(decl.body, true))
  {
    var s := Function(decl);
    assert StmtCensus(s) == InFunction(StmtsCensus(decl.body));
  }

  lemma ClassExpected(name: string, superclass: Option<VarRef>, methods: seq<FunDecl>, top: TopNames)
    ensures StmtExpected(Class(name, superclass, methods), top)
            == Expected({name}, SuperclassRefs(superclass) + FunsRefs(methods),
                        InClass(name, superclass, MethodsCensus(methods)),
                        Hit(name, top) + FunsDups(methods), FunsSelfReads(methods))
  {
    var s := Class(name, superclass, methods);
    assert DeclaredNames(s) == {name};
    assert StmtRefs(s) == SuperclassRefs(superclass) + FunsRefs(methods);
    assert StmtCensus(s) == InClass(name, superclass, MethodsCensus(methods));
    assert Dups(s, top) == Hit(name, top) + FunsDups(methods);
    assert SelfReads(s, top.Some?) == FunsSelfReads(methods);
  }
}
