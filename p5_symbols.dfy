/**
 * Types, symbols and the links name analysis leaves behind, for the fifth
 * exercise (p5/ast.java). The `Type` and symbol classes are not part of this
 * model's sources; their shape here is the one p5/ast.java relies on.
 *
 * Symbols live in an arena `syms`: a symbol reference is an index into it, so
 * that the one `FctnSym` object shared by a scope, an identifier and a
 * function declaration can be updated in place by `addFormals`.
 */
module P5Symbols {
  import opened Wrappers
  import opened ErrMsg

  datatype Type =
    | IntegerType
    | LogicalType
    | StringType
    | VoidType
    | FctnType
    | TupleType(tupleName: string)
    | TupleDefType

  /** A scope stack whose values are symbol references. */
  type Scopes = seq<map<string, nat>>

  /**
   * `Sym(type)`, `FctnSym(returnType, numParams)` with its parameter types,
   * `TupleSym(tupleId)` (a variable of a tuple type: the type's name and the
   * `TupleDefSym` its identifier is linked to) and `TupleDefSym(table)` (a tuple
   * type: the scopes of its field table).
   */
  datatype SymRec =
    | Plain(typ: Type)
    | FctnSym(returnType: Type, numParams: nat, paramTypes: seq<Type>)
    | TupleSym(tupleName: string, def: nat)
    | TupleDefSym(fields: Scopes)

  /** `getType()` of each symbol class. */
  function SymType(s: SymRec): (t: Type)
    ensures t.FctnType? <==> s.FctnSym? || (s.Plain? && s.typ.FctnType?)
    ensures t.TupleDefType? <==> s.TupleDefSym? || (s.Plain? && s.typ.TupleDefType?)
  {
    match s
    case Plain(t) => t
    case FctnSym(_, _, _) => FctnType
    case TupleSym(n, _) => TupleType(n)
    case TupleDefSym(_) => TupleDefType
  }

  /**
   * What name analysis writes into the tree, plus the diagnostics it reports:
   * `idLinks` is `IdNode.mySym`, `accessLinks` and `badAccess` are
   * `TupleAccessNode.mySym` and `badAccess`, `fctnLinks` is `FctnDeclNode.mySym`
   * (keyed by the uid of the function's name), all by node uid.
   */
  datatype State = State(
    syms: seq<SymRec>,
    idLinks: map<nat, nat>,
    accessLinks: map<nat, nat>,
    badAccess: set<nat>,
    fctnLinks: map<nat, nat>,
    diags: seq<Diag>)

  /** Every reference held in the scopes points into an arena of size `n`. */
  predicate RefsBelow(scopes: Scopes, n: nat)
  {
    forall j, k :: 0 <= j < |scopes| && k in scopes[j] ==> scopes[j][k] < n
  }

  /** A symbol's own references point into the arena, at the right kinds of symbol. */
  predicate SymWf(s: SymRec, syms: seq<SymRec>)
  {
    match s
    case TupleSym(_, def) => def < |syms| && syms[def].TupleDefSym?
    case TupleDefSym(fields) => RefsBelow(fields, |syms|)
    case _ => true
  }

  /**
   * Every link is a valid reference; an access link and the definition of a
   * tuple variable are tuple types; a function link is a function symbol.
   */
  predicate Wf(s: State)
  {
    && (forall u :: u in s.idLinks ==> s.idLinks[u] < |s.syms|)
    && (forall u :: u in s.accessLinks ==> s.accessLinks[u] < |s.syms| && s.syms[s.accessLinks[u]].TupleDefSym?)
    && (forall u :: u in s.fctnLinks ==> s.fctnLinks[u] < |s.syms| && s.syms[s.fctnLinks[u]].FctnSym?)
    && (forall i :: 0 <= i < |s.syms| ==> SymWf(s.syms[i], s.syms))
  }

  /** The state before any analysis: no symbols, no links, no diagnostics. */
  const Initial := State([], map[], map[], {}, map[], [])

  /** `ErrMsg.fatal`. */
  function Report(s: State, line: int, col: int, msg: string): (r: State)
    ensures r.diags == s.diags + [Diag(line, col, msg)]
    ensures r.(diags := s.diags) == s
  {
    s.(diags := s.diags + [Diag(line, col, msg)])
  }

  lemma RefsBelowGrow(scopes: Scopes, n: nat, m: nat)
    requires RefsBelow(scopes, n) && n <= m
    ensures RefsBelow(scopes, m)
  {
  }

  /** Binding a name in the innermost scope to a valid reference keeps the scopes valid. */
  lemma RefsBelowBind(scopes: Scopes, name: string, r: nat, n: nat)
    requires scopes != [] && RefsBelow(scopes, n) && r < n
    ensures RefsBelow([scopes[0][name := r]] + scopes[1..], n)
  {
    var updated := [scopes[0][name := r]] + scopes[1..];
    forall j, k | 0 <= j < |updated| && k in updated[j]
      ensures updated[j][k] < n
    {
      if j > 0 {
        assert updated[j] == scopes[j];
      }
    }
  }

  /** Appending a well-formed symbol to the arena keeps the state well formed. */
  lemma {:induction false} WfAppend(s: State, rec: SymRec)
    requires Wf(s) && SymWf(rec, s.syms)
    ensures Wf(s.(syms := s.syms + [rec]))
  {
    var syms' := s.syms + [rec];
    forall i | 0 <= i < |syms'|
      ensures SymWf(syms'[i], syms')
    {
      var x := syms'[i];
      assert SymWf(x, s.syms);
      match x
      case TupleSym(_, def) =>
        assert syms'[def] == s.syms[def];
      case TupleDefSym(fields) =>
        RefsBelowGrow(fields, |s.syms|, |syms'|);
      case _ =>
    }
  }
}
