/**
  The syntax tree the resolver walks, as the parser hands it over.

  Only what the resolver reads is kept: the lexeme of every name, the
  sub-expressions and sub-statements in their source order, and an identity
  for each node whose binding the resolver records (a variable read, an
  assignment, `this`, `super`, and the superclass reference of a class).
  Operators, literal values and source positions are left out: the resolver
  never looks at them.
 */
module Ast {

  datatype Option<T> = None | Some(value: T)

  /** A node that names a variable: its identity and the lexeme it looks up. */
  datatype VarRef = VarRef(id: nat, name: string)

  datatype Expr =
    | Assign(id: nat, name: string, value: Expr)
    | Binary(left: Expr, right: Expr)
    | Call(callee: Expr, arguments: seq<Expr>)
    | Get(obj: Expr, property: string)
    | Grouping(expression: Expr)
    | Literal
    | Logical(left: Expr, right: Expr)
    | Set(obj: Expr, property: string, value: Expr)
    | Super(id: nat, methodName: string)
    | This(id: nat)
    | Unary(right: Expr)
    | Variable(id: nat, name: string)

  /** A function or method declaration: its name, parameter lexemes and body. */
  datatype FunDecl = FunDecl(name: string, params: seq<string>, body: seq<Stmt>)

  datatype Stmt =
    | Block(statements: seq<Stmt>)
    | Class(name: string, superclass: Option<VarRef>, methods: seq<FunDecl>)
    | Expression(expression: Expr)
    | Function(decl: FunDecl)
    | If(condition: Expr, thenBranch: Stmt, elseBranch: Option<Stmt>)
    | Print(expression: Expr)
    | Return(value: Option<Expr>)
    | Var(name: string, initializer: Option<Expr>)
    | While(condition: Expr, body: Stmt)

  /** The lexemes the scanner gives the `this`, `super` and `return` keywords. */
  const ThisLexeme: string := "this"
  const SuperLexeme: string := "super"
  const ReturnLexeme: string := "return"
  /** The method name that makes a method an initializer. */
  const InitName: string := "init"

  // ---------------------------------------------------------------------
  // Reference nodes, in the order a depth-first walk meets them.
  // ---------------------------------------------------------------------

  /** How a reference node uses its name: the checks the resolver makes depend on it. */
  datatype UseKind = Read | AssignTarget | ThisUse | SuperUse

  datatype Use = Use(kind: UseKind, node: VarRef)

  /** The reference nodes of an expression with how each uses its name, in walk order. */
  function ExprUses(e: Expr): seq<Use>
    decreases e
  {
    match e
    case Assign(id, name, value) => ExprUses(value) + [Use(AssignTarget, VarRef(id, name))]
    case Binary(left, right) => ExprUses(left) + ExprUses(right)
    case Call(callee, arguments) => ExprUses(callee) + ExprsUses(arguments)
    case Get(obj, _) => ExprUses(obj)
    case Grouping(inner) => ExprUses(inner)
    case Literal => []
    case Logical(left, right) => ExprUses(left) + ExprUses(right)
    case Set(obj, _, value) => ExprUses(value) + ExprUses(obj)
    case Super(id, _) => [Use(SuperUse, VarRef(id, SuperLexeme))]
    case This(id) => [Use(ThisUse, VarRef(id, ThisLexeme))]
    case Unary(right) => ExprUses(right)
    case Variable(id, name) => [Use(Read, VarRef(id, name))]
  }

  function ExprsUses(es: seq<Expr>): seq<Use>
    decreases es
  {
    if es == [] then [] else ExprUses(es[0]) + ExprsUses(es[1..])
  }

  lemma LogicalUses(left: Expr, right: Expr)
    ensures ExprUses(Logical(left, right)) == ExprUses(left) + ExprUses(right)
  {
  }

  lemma SetUses(obj: Expr, property: string, value: Expr)
    ensures ExprUses(Set(obj, property, value)) == ExprUses(value) + ExprUses(obj)
  {
  }

  function OptExprUses(e: Option<Expr>): seq<Use>
  {
    match e
    case None => []
    case Some(x) => ExprUses(x)
  }

  /** The nodes of a list of uses. */
  function Nodes(uses: seq<Use>): seq<VarRef>
  {
    if uses == [] then [] else [uses[0].node] + Nodes(uses[1..])
  }

  lemma {:induction false} NodesConcat(a: seq<Use>, b: seq<Use>)
    ensures Nodes(a + b) == Nodes(a) + Nodes(b)
    decreases |a|
  {
    if a == [] {
      assert a + b == b;
    } else {
      assert (a + b)[0] == a[0] && (a + b)[1..] == a[1..] + b;
      NodesConcat(a[1..], b);
    }
  }

  lemma NodesSingle(u: Use)
    ensures Nodes([u]) == [u.node]
  {
    assert [u][1..] == [];
  }

  /** How many of `uses` are reads of `name`. */
  function ReadsOf(uses: seq<Use>, name: string): nat
  {
    if uses == [] then 0
    else (if uses[0].kind == Read && uses[0].node.name == name then 1 else 0) + ReadsOf(uses[1..], name)
  }

  function ExprRefs(e: Expr): seq<VarRef>
  {
    Nodes(ExprUses(e))
  }

  function ExprsRefs(es: seq<Expr>): seq<VarRef>
  {
    Nodes(ExprsUses(es))
  }

  function OptExprRefs(e: Option<Expr>): seq<VarRef>
  {
    Nodes(OptExprUses(e))
  }

  /** The superclass reference of a class, if any, as a list of reference nodes. */
  function SuperclassRefs(superclass: Option<VarRef>): seq<VarRef>
  {
    match superclass
    case None => []
    case Some(s) => [s]
  }

  function StmtRefs(s: Stmt): seq<VarRef>
    decreases s
  {
    match s
    case Block(statements) => StmtsRefs(statements)
    case Class(_, superclass, methods) => SuperclassRefs(superclass) + FunsRefs(methods)
    case Expression(e) => ExprRefs(e)
    case Function(decl) => StmtsRefs(decl.body)
    case If(c, t, el) =>
      ExprRefs(c) + StmtRefs(t) + (match el case None => [] case Some(x) => StmtRefs(x))
    case Print(e) => ExprRefs(e)
    case Return(value) => OptExprRefs(value)
    case Var(_, init) => OptExprRefs(init)
    case While(c, body) => ExprRefs(c) + StmtRefs(body)
  }

  function StmtsRefs(ss: seq<Stmt>): seq<VarRef>
    decreases ss
  {
    if ss == [] then [] else StmtRefs(ss[0]) + StmtsRefs(ss[1..])
  }

  function FunsRefs(fs: seq<FunDecl>): seq<VarRef>
    decreases fs
  {
    if fs == [] then [] else StmtsRefs(fs[0].body) + FunsRefs(fs[1..])
  }

  /** The identities of a list of reference nodes, in order. */
  function RefIds(refs: seq<VarRef>): seq<nat>
  {
    if refs == [] then [] else [refs[0].id] + RefIds(refs[1..])
  }

  lemma {:induction false} RefIdsConcat(a: seq<VarRef>, b: seq<VarRef>)
    ensures RefIds(a + b) == RefIds(a) + RefIds(b)
    decreases |a|
  {
    if a == [] {
      assert a + b == b;
    } else {
      assert (a + b)[0] == a[0] && (a + b)[1..] == a[1..] + b;
      RefIdsConcat(a[1..], b);
    }
  }

  // ---------------------------------------------------------------------
  // Names a statement declares in the scope it is resolved in.
  // ---------------------------------------------------------------------

  /**
    A `var`, `fun` or `class` statement declares its name in the current
    scope. An `if` or `while` whose branch is such a statement (the tree
    allows it) declares that name too, because the branch is resolved
    without a scope of its own.
   */
  function DeclaredNames(s: Stmt): set<string>
    decreases s
  {
    match s
    case Var(name, _) => {name}
    case Function(decl) => {decl.name}
    case Class(name, _, _) => {name}
    case If(_, t, el) =>
      DeclaredNames(t) + (match el case None => {} case Some(x) => DeclaredNames(x))
    case While(_, body) => DeclaredNames(body)
    case _ => {}
  }

  function StmtsDeclaredNames(ss: seq<Stmt>): set<string>
    decreases ss
  {
    if ss == [] then {} else DeclaredNames(ss[0]) + StmtsDeclaredNames(ss[1..])
  }

  /** The parameter names of a function, as a set. */
  function Names(params: seq<string>): set<string>
  {
    set p | p in params
  }
}
