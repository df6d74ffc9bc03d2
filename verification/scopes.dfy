/**
  The resolver's stack of lexical scopes. Each scope maps a lexeme to
  whether its declaration is complete ("defined", `true`) or still in
  progress ("declared", `false`). The innermost scope is the last element;
  the global scope is never on the stack.
 */
module Scopes {
  import opened Ast

  type Scope = map<string, bool>

  function Top(scopes: seq<Scope>): Scope
    requires |scopes| > 0
  {
    scopes[|scopes| - 1]
  }

  /** Every scope except the innermost one. */
  function Below(scopes: seq<Scope>): seq<Scope>
    requires |scopes| > 0
  {
    scopes[..|scopes| - 1]
  }

  /** Opening a block, function body or class body pushes an empty scope. */
  function BeginScope(scopes: seq<Scope>): (r: seq<Scope>)
    ensures |r| == |scopes| + 1
    ensures Below(r) == scopes
    ensures Top(r) == map[]
  {
    scopes + [map[]]
  }

  /** Closing it pops the innermost scope, whatever it then holds. */
  function EndScope(scopes: seq<Scope>): (r: seq<Scope>)
    requires |scopes| > 0
    ensures r + [Top(scopes)] == scopes
  {
    scopes[..|scopes| - 1]
  }

  /**
    Sets the readiness of `name` in the innermost scope. With no scope on
    the stack (global code) nothing changes.
   */
  function Put(scopes: seq<Scope>, name: string, ready: bool): (r: seq<Scope>)
    ensures |r| == |scopes|
    ensures |scopes| > 0 ==> Below(r) == Below(scopes)
    ensures |scopes| > 0 ==> Top(r).Keys == Top(scopes).Keys + {name} && Top(r)[name] == ready
    ensures |scopes| > 0 ==>
              forall k :: k in Top(scopes) && k != name ==> Top(r)[k] == Top(scopes)[k]
  {
    if |scopes| == 0 then scopes
    else Below(scopes) + [Top(scopes)[name := ready]]
  }

  /**
    The distance to the innermost scope that holds `name`: 0 is the
    innermost scope itself. `None` when no scope on the stack holds it, so
    the name is left to the global scope.
   */
  function Lookup(scopes: seq<Scope>, name: string): (r: Option<nat>)
    ensures r.Some? <==> exists i :: 0 <= i < |scopes| && name in scopes[i]
    ensures r.Some? ==> r.value < |scopes| && name in scopes[|scopes| - 1 - r.value]
    ensures r.Some? ==> forall j :: |scopes| - 1 - r.value < j < |scopes| ==> name !in scopes[j]
    decreases |scopes|
  {
    if |scopes| == 0 then None
    else if name in Top(scopes) then Some(0)
    else
      match Lookup(Below(scopes), name)
      case None => None
      case Some(d) => Some(d + 1)
  }

  /**
    The search as a loop from the innermost scope outward, stopping at the
    first scope that holds the name.
   */
  method FindBinding(scopes: seq<Scope>, name: string) returns (r: Option<nat>)
    ensures r == Lookup(scopes, name)
  {
    var i := |scopes| - 1;
    while i >= 0
      invariant -1 <= i < |scopes|
      invariant forall j :: i < j < |scopes| ==> name !in scopes[j]
    {
      if name in scopes[i] {
        return Some(|scopes| - 1 - i);
      }
      i := i - 1;
    }
    return None;
  }

  /**
    `after` is `before` with only the innermost scope changed, and changed
    only by completing declarations of `names`: every other scope is
    untouched, the innermost scope gains exactly `names`, each of them ends
    up defined, and every other name keeps its state. With no scope on the
    stack the stack stays empty.
   */
  predicate DeclaresOnly(before: seq<Scope>, after: seq<Scope>, names: set<string>)
  {
    && |after| == |before|
    && (|before| > 0 ==>
          && Below(after) == Below(before)
          && Top(after).Keys == Top(before).Keys + names
          && (forall n :: n in names ==> Top(after)[n])
          && (forall k :: k in Top(before) && k !in names ==> Top(after)[k] == Top(before)[k]))
  }

  lemma DeclaresOnlyNothing(scopes: seq<Scope>)
    ensures DeclaresOnly(scopes, scopes, {})
  {
  }

  lemma DeclaresOnlyTrans(a: seq<Scope>, b: seq<Scope>, c: seq<Scope>, n1: set<string>, n2: set<string>)
    requires DeclaresOnly(a, b, n1)
    requires DeclaresOnly(b, c, n2)
    ensures DeclaresOnly(a, c, n1 + n2)
  {
    if |a| > 0 {
      forall n | n in n1 + n2
        ensures Top(c)[n]
      {
        if n !in n2 {
          assert n in Top(b);
        }
      }
    }
  }

  /** Every name in the innermost scope is defined (trivially so at global level). */
  predicate AllDefined(scopes: seq<Scope>)
  {
    |scopes| > 0 ==> forall k :: k in Top(scopes) ==> Top(scopes)[k]
  }

  /** Completing declarations keeps every name of the innermost scope defined. */
  lemma DeclaresOnlyAllDefined(before: seq<Scope>, after: seq<Scope>, names: set<string>)
    requires DeclaresOnly(before, after, names) && AllDefined(before)
    ensures AllDefined(after)
  {
    if |before| > 0 {
      forall k | k in Top(after)
        ensures Top(after)[k]
      {
        if k !in names {
          assert k in Top(before);
        }
      }
    }
  }
}
