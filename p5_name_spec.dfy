/**
 * Name analysis of the fifth exercise (p5/ast.java, the `nameAnalysis`
 * methods) as pure functions of the scope stack and the analysis state. The
 * imperative analyser in `P5NameAnalysis` is proved to compute exactly these;
 * the properties of the pass are lemmas about them.
 */
module P5NameSpec {
  import opened Wrappers
  import opened ErrMsg
  import opened Ast
  import opened SymTables
  import opened P5Symbols

  /** `TypeNode.type()`. */
  function TypeOf(t: TypeNode): (ty: Type)
    ensures ty.VoidType? <==> t.VoidNode?
    ensures ty.TupleType? <==> t.TupleNode?
    ensures !ty.FctnType? && !ty.TupleDefType? && !ty.StringType?
  {
    match t
    case LogicalNode => LogicalType
    case IntegerNode => IntegerType
    case VoidNode => VoidType
    case TupleNode(id) => TupleType(id.name)
  }

  /** `IdNode.link`. */
  function LinkId(s: State, id: Id, r: nat): (linked: State)
    ensures id.uid in linked.idLinks && linked.idLinks[id.uid] == r
    ensures linked.(idLinks := s.idLinks) == s
  {
    s.(idLinks := s.idLinks[id.uid := r])
  }

  /** The scopes and the state fit together: every scope entry is a valid reference. */
  predicate Ready(scopes: Scopes, s: State)
  {
    scopes != [] && Wf(s) && RefsBelow(scopes, |s.syms|)
  }

  /** Analysing an expression changes links and diagnostics only, never the symbols. */
  predicate ExpStep(s: State, r: State)
  {
    Wf(r) && r.syms == s.syms && r.fctnLinks == s.fctnLinks && s.diags <= r.diags
  }

  /**
   * Analysing a statement or declaration only adds symbols (no existing one
   * changes) and only adds diagnostics.
   */
  predicate Grows(s: State, r: State)
  {
    Wf(r) && s.syms <= r.syms && s.diags <= r.diags
  }

  /** A declaration changes only the innermost scope. */
  predicate InnermostOnly(scopes: Scopes, sc: Scopes)
  {
    |sc| == |scopes| && (|scopes| > 0 ==> sc[1..] == scopes[1..])
  }

  // ---------------------------------------------------------------- uses

  /** `IdNode.nameAnalysis`: link the identifier to its global binding, or report it undeclared. */
  function UseId(id: Id, scopes: Scopes, s: State): (r: State)
    requires Ready(scopes, s)
    ensures ExpStep(s, r)
  {
    match Lookup(scopes, id.name)
    case Some(ref) =>
      LookupIsInnermost(scopes, id.name);
      LinkId(s, id, ref)
    case None => Report(s, id.line, id.col, Undeclared)
  }

  /** `nameAnalysis` of every expression node. */
  function ResolveExp(e: Exp, scopes: Scopes, s: State): (r: State)
    requires Ready(scopes, s)
    ensures ExpStep(s, r)
  {
    match e
    case IdExp(id) => UseId(id, scopes, s)
    case AccessExp(a) => ResolveAccess(a, scopes, s)
    case AssignExp(a) => ResolveExp(a.rhs, scopes, ResolveExp(a.lhs, scopes, s))
    case CallExp(c) => ResolveCall(c, scopes, s)
    case UnaryMinus(x) => ResolveExp(x, scopes, s)
    case Not(x) => ResolveExp(x, scopes, s)
    case Binary(_, l, rt) => ResolveExp(rt, scopes, ResolveExp(l, scopes, s))
    case _ => s
  }

  /** `ExpListNode.nameAnalysis`: each argument in order. */
  function ResolveExps(es: seq<Exp>, scopes: Scopes, s: State): (r: State)
    requires Ready(scopes, s)
    ensures ExpStep(s, r)
  {
    if es == [] then s else ResolveExps(es[1..], scopes, ResolveExp(es[0], scopes, s))
  }

  /** `CallExpNode.nameAnalysis`: the callee, then the arguments. */
  function ResolveCall(c: Call, scopes: Scopes, s: State): (r: State)
    requires Ready(scopes, s)
    ensures ExpStep(s, r)
  {
    ResolveExps(c.args, scopes, UseId(c.callee, scopes, s))
  }

  /** Name analysis of the location of a colon-access. */
  function ResolveLoc(loc: Loc, scopes: Scopes, s: State): (r: State)
    requires Ready(scopes, s)
    ensures ExpStep(s, r)
  {
    match loc
    case LocId(id) => UseId(id, scopes, s)
    case LocAccess(inner) => ResolveAccess(inner, scopes, s)
  }

  /**
   * The field table a colon-access looks its field up in, once its location
   * is analysed; `None` when the access is bad (reported here or before).
   */
  function LocTable(loc: Loc, s: State): (res: (Option<Scopes>, State))
    requires Wf(s)
    ensures ExpStep(s, res.1)
    ensures res.1.idLinks == s.idLinks && res.1.accessLinks == s.accessLinks && res.1.badAccess == s.badAccess
    ensures res.0.Some? ==> RefsBelow(res.0.value, |s.syms|)
  {
    match loc
    case LocId(id) =>
      if id.uid !in s.idLinks then (None, s)
      else (match s.syms[s.idLinks[id.uid]]
        case TupleSym(_, def) => (Some(s.syms[def].fields), s)
        case _ => (None, Report(s, id.line, id.col, NonTupleAccess)))
    case LocAccess(inner) =>
      if inner.uid in s.badAccess then (None, s)
      else if inner.uid !in s.accessLinks then (None, Report(s, inner.field.line, inner.field.col, NonTupleAccess))
      else (Some(s.syms[s.accessLinks[inner.uid]].fields), s)
  }

  /** `TupleAccessNode.nameAnalysis`. */
  function ResolveAccess(a: Access, scopes: Scopes, s: State): (r: State)
    requires Ready(scopes, s)
    ensures ExpStep(s, r)
  {
    var s1 := ResolveLoc(a.loc, scopes, s.(badAccess := s.badAccess - {a.uid}));
    var (table, s2) := LocTable(a.loc, s1);
    LookupField(a, table, s2)
  }

  /**
   * The last step of a colon-access: look the field up in the table found for
   * the location, link it, and when the field is itself of a tuple type,
   * link the access to that type's definition.
   */
  function LookupField(a: Access, table: Option<Scopes>, s: State): (r: State)
    requires Wf(s) && (table.Some? ==> RefsBelow(table.value, |s.syms|))
    ensures ExpStep(s, r)
  {
    match table
    case None => s.(badAccess := s.badAccess + {a.uid})
    case Some(fields) =>
      match Lookup(fields, a.field.name)
      case None => Report(s, a.field.line, a.field.col, BadFieldName).(badAccess := s.badAccess + {a.uid})
      case Some(ref) =>
        LookupIsInnermost(fields, a.field.name);
        var s1 := LinkId(s, a.field, ref);
        match s1.syms[ref]
        case TupleSym(_, def) => s1.(accessLinks := s1.accessLinks[a.uid := def])
        case _ => s1
  }

  // ---------------------------------------------------------------- declarations

  /** Inserting a new symbol: append it to the arena, bind it in the innermost scope, link the identifier. */
  function Declare(id: Id, rec: SymRec, scopes: Scopes, s: State): (res: (Scopes, State))
    requires Ready(scopes, s) && SymWf(rec, s.syms)
    ensures InnermostOnly(scopes, res.0) && Grows(s, res.1) && Ready(res.0, res.1)
    ensures |res.1.syms| == |s.syms| + 1
  {
    var ref := |s.syms|;
    WfAppend(s, rec);
    RefsBelowGrow(scopes, |s.syms|, ref + 1);
    RefsBelowBind(scopes, id.name, ref, ref + 1);
    ([scopes[0][id.name := ref]] + scopes[1..], LinkId(s.(syms := s.syms + [rec]), id, ref))
  }

  /** `VarDeclNode.nameAnalysis(symTab, globalTab)`. */
  function VarDeclSpec(d: Decl, scopes: Scopes, global: Scopes, s: State): (res: (Scopes, State))
    requires d.VarDecl? && Ready(scopes, s) && Ready(global, s)
    ensures InnermostOnly(scopes, res.0) && Grows(s, res.1) && Ready(res.0, res.1)
  {
    var (bad, s1) :=
      if d.typ.VoidNode? then (true, Report(s, d.id.line, d.id.col, NonFctnVoid))
      else if d.typ.TupleNode? then
        var t := d.typ.tupleId;
        match Lookup(global, t.name)
        case Some(def) =>
          LookupIsInnermost(global, t.name);
          if s.syms[def].TupleDefSym? then (false, LinkId(s, t, def))
          else (true, Report(s, t.line, t.col, BadTupleTypeName))
        case None => (true, Report(s, t.line, t.col, BadTupleTypeName))
      else (false, s);
    var dup := d.id.name in scopes[0];
    var s2 := if dup then Report(s1, d.id.line, d.id.col, MultiplyDeclared) else s1;
    if bad || dup then (scopes, s2)
    else if d.typ.TupleNode? then
      LookupIsInnermost(global, d.typ.tupleId.name);
      Declare(d.id, TupleSym(d.typ.tupleId.name, Lookup(global, d.typ.tupleId.name).value), scopes, s2)
    else Declare(d.id, Plain(TypeOf(d.typ)), scopes, s2)
  }

  /** `FormalDeclNode.nameAnalysis`: the new symbol's reference, or `None` (Java's null) when bad. */
  function FormalSpec(f: Formal, scopes: Scopes, s: State): (res: (Option<nat>, Scopes, State))
    requires Ready(scopes, s)
    ensures InnermostOnly(scopes, res.1) && Grows(s, res.2) && Ready(res.1, res.2)
    ensures res.0.Some? ==> res.0.value < |res.2.syms| && res.2.syms[res.0.value] == Plain(TypeOf(f.typ))
  {
    var void := f.typ.VoidNode?;
    var s1 := if void then Report(s, f.id.line, f.id.col, NonFctnVoid) else s;
    var dup := f.id.name in scopes[0];
    var s2 := if dup then Report(s1, f.id.line, f.id.col, MultiplyDeclared) else s1;
    if void || dup then (None, scopes, s2)
    else
      var (sc, s3) := Declare(f.id, Plain(TypeOf(f.typ)), scopes, s2);
      (Some(|s2.syms|), sc, s3)
  }

  /**
   * `FormalsListNode.nameAnalysis`: the types of the formals that were
   * declared, in order, with the scopes and state after all of them.
   */
  function FormalsSpec(fs: seq<Formal>, scopes: Scopes, s: State): (res: (seq<Type>, Scopes, State))
    requires Ready(scopes, s)
    ensures InnermostOnly(scopes, res.1) && Grows(s, res.2) && Ready(res.1, res.2)
  {
    FormalsFrom(fs, 0, [], scopes, s)
  }

  /** The loop over the formals from position `i` on, `typeList` holding the types so far. */
  function FormalsFrom(fs: seq<Formal>, i: nat, typeList: seq<Type>, scopes: Scopes, s: State): (res: (seq<Type>, Scopes, State))
    requires i <= |fs| && Ready(scopes, s)
    ensures InnermostOnly(scopes, res.1) && Grows(s, res.2) && Ready(res.1, res.2)
    decreases |fs| - i
  {
    if i == |fs| then (typeList, scopes, s)
    else
      var (o, sc1, s1) := FormalSpec(fs[i], scopes, s);
      FormalsFrom(fs, i + 1, typeList + (if o.Some? then [TypeOf(fs[i].typ)] else []), sc1, s1)
  }

  /** One turn of the loop over the formals. */
  lemma FormalsFromStep(fs: seq<Formal>, i: nat, typeList: seq<Type>, scopes: Scopes, s: State)
    requires i < |fs| && Ready(scopes, s)
    ensures var step := FormalSpec(fs[i], scopes, s);
      FormalsFrom(fs, i, typeList, scopes, s) ==
      FormalsFrom(fs, i + 1, typeList + (if step.0.Some? then [TypeOf(fs[i].typ)] else []), step.1, step.2)
  {
  }

  /** `FctnSym.addFormals` on the symbol at `ref`. */
  function AddFormals(s: State, ref: nat, types: seq<Type>): (r: State)
    requires Wf(s) && ref < |s.syms| && s.syms[ref].FctnSym?
    ensures Wf(r) && |r.syms| == |s.syms| && r.diags == s.diags
    ensures forall i :: 0 <= i < |s.syms| && i != ref ==> r.syms[i] == s.syms[i]
  {
    var r := s.(syms := s.syms[ref := s.syms[ref].(paramTypes := types)]);
    assert forall i :: 0 <= i < |r.syms| ==> SymWf(s.syms[i], s.syms) && (r.syms[i].TupleDefSym? <==> s.syms[i].TupleDefSym?);
    r
  }

  /**
   * `DeclListNode.nameAnalysis(symTab, globalTab)`: `outer` is `None` when the
   * two tables are the same one, else the scopes of the separate global table.
   */
  function DeclsSpec(ds: seq<Decl>, scopes: Scopes, outer: Option<Scopes>, s: State): (res: (Scopes, State))
    requires Ready(scopes, s) && (outer.Some? ==> Ready(outer.value, s))
    ensures InnermostOnly(scopes, res.0) && Grows(s, res.1) && Ready(res.0, res.1)
    decreases ds, 3
  {
    if ds == [] then (scopes, s)
    else
      var (sc1, s1) := DeclSpec(ds[0], scopes, outer, s);
      assert outer.Some? ==> RefsBelow(outer.value, |s1.syms|);
      DeclsSpec(ds[1..], sc1, outer, s1)
  }

  /** One turn of the loop over a declaration list. */
  lemma DeclsStep(ds: seq<Decl>, i: nat, scopes: Scopes, outer: Option<Scopes>, s: State)
    requires i < |ds| && Ready(scopes, s) && (outer.Some? ==> Ready(outer.value, s))
    ensures outer.Some? ==> Ready(outer.value, DeclSpec(ds[i], scopes, outer, s).1)
    ensures var step := DeclSpec(ds[i], scopes, outer, s);
      DeclsSpec(ds[i..], scopes, outer, s) == DeclsSpec(ds[i + 1..], step.0, outer, step.1)
  {
    if outer.Some? {
      RefsBelowGrow(outer.value, |s.syms|, |DeclSpec(ds[i], scopes, outer, s).1.syms|);
    }
    assert ds[i..][0] == ds[i];
    assert ds[i..][1..] == ds[i + 1..];
  }

  /** One declaration of a list: a variable gets both tables, the others only the local one. */
  function DeclSpec(d: Decl, scopes: Scopes, outer: Option<Scopes>, s: State): (res: (Scopes, State))
    requires Ready(scopes, s) && (outer.Some? ==> Ready(outer.value, s))
    ensures InnermostOnly(scopes, res.0) && Grows(s, res.1) && Ready(res.0, res.1)
    decreases d, 2
  {
    match d
    case VarDecl(_, _, _) => VarDeclSpec(d, scopes, if outer.Some? then outer.value else scopes, s)
    case FctnDecl(_, _, _, _) => FctnDeclSpec(d, scopes, s)
    case TupleDecl(_, _) => TupleDeclSpec(d, scopes, s)
  }

  /**
   * `FctnDeclNode.nameAnalysis`: declare the function in the enclosing scope
   * unless the name is already local there, then analyse formals and body in
   * a new scope, attach the formals' types and pop the scope.
   */
  function FctnDeclSpec(d: Decl, scopes: Scopes, s: State): (res: (Scopes, State))
    requires d.FctnDecl? && Ready(scopes, s)
    ensures InnermostOnly(scopes, res.0) && Grows(s, res.1) && Ready(res.0, res.1)
    decreases d, 1
  {
    var (sc1, s1) := FctnNameSpec(d, scopes, s);
    var (types, sc2, s2) := FormalsSpec(d.formals, [map[]] + sc1, s1);
    var s3 := if d.id.name in scopes[0] then s2 else AddFormals(s2, |s.syms|, types);
    var (sc4, s4) := BodySpec(d.body, sc2, s3);
    (sc4[1..], s4)
  }

  /**
   * The first step of `FctnDeclNode.nameAnalysis`: a new `FctnSym` with no
   * parameter types yet, bound in the enclosing scope and linked from both the
   * declaration and its identifier, unless the name is already local there.
   */
  function FctnNameSpec(d: Decl, scopes: Scopes, s: State): (res: (Scopes, State))
    requires d.FctnDecl? && Ready(scopes, s)
    ensures InnermostOnly(scopes, res.0) && Grows(s, res.1) && Ready(res.0, res.1)
    ensures d.id.name !in scopes[0] ==> |s.syms| < |res.1.syms| && res.1.syms[|s.syms|].FctnSym?
  {
    if d.id.name in scopes[0] then (scopes, Report(s, d.id.line, d.id.col, MultiplyDeclared))
    else
      var (sc, st) := Declare(d.id, FctnSym(TypeOf(d.ret), |d.formals|, []), scopes, s);
      (sc, st.(fctnLinks := st.fctnLinks[d.id.uid := |s.syms|]))
  }

  /** `FctnBodyNode.nameAnalysis`: the local declarations, then the statements. */
  function BodySpec(b: Body, scopes: Scopes, s: State): (res: (Scopes, State))
    requires Ready(scopes, s)
    ensures InnermostOnly(scopes, res.0) && Grows(s, res.1) && Ready(res.0, res.1)
    decreases b, 0
  {
    var (sc, s1) := DeclsSpec(b.decls, scopes, None, s);
    (sc, StmtsSpec(b.stmts, sc, s1))
  }

  /**
   * `TupleDeclNode.nameAnalysis`: the fields are analysed in a fresh table (with
   * the enclosing table for tuple-type names), then the tuple name is bound in
   * the enclosing scope unless it was already local there.
   */
  function TupleDeclSpec(d: Decl, scopes: Scopes, s: State): (res: (Scopes, State))
    requires d.TupleDecl? && Ready(scopes, s)
    ensures InnermostOnly(scopes, res.0) && Grows(s, res.1) && Ready(res.0, res.1)
    decreases d, 1
  {
    var dup := d.id.name in scopes[0];
    var s1 := if dup then Report(s, d.id.line, d.id.col, MultiplyDeclared) else s;
    var (fieldScopes, s2) := DeclsSpec(d.fields, [map[]], Some(scopes), s1);
    if dup then (scopes, s2)
    else Declare(d.id, TupleDefSym(fieldScopes), scopes, s2)
  }

  // ---------------------------------------------------------------- statements

  /** `StmtListNode.nameAnalysis`. */
  function StmtsSpec(ss: seq<Stmt>, scopes: Scopes, s: State): (r: State)
    requires Ready(scopes, s)
    ensures Grows(s, r) && Ready(scopes, r)
    decreases ss, 3
  {
    if ss == [] then s else StmtsSpec(ss[1..], scopes, StmtSpec(ss[0], scopes, s))
  }

  /**
   * `nameAnalysis` of each statement node. The guard of an `if`, `if`/`else` or
   * `while` is analysed in the enclosing scopes; each block then gets a new
   * scope pushed on them, popped afterwards, so the scopes are the same after
   * every statement.
   */
  function StmtSpec(st: Stmt, scopes: Scopes, s: State): (r: State)
    requires Ready(scopes, s)
    ensures Grows(s, r) && Ready(scopes, r)
    decreases st, 3
  {
    match st
    case AssignStmt(a) => ResolveExp(AssignExp(a), scopes, s)
    case PostIncStmt(e) => ResolveExp(e, scopes, s)
    case PostDecStmt(e) => ResolveExp(e, scopes, s)
    case IfStmt(c, ds, ss) =>
      var (sc, s1) := DeclsSpec(ds, [map[]] + scopes, None, ResolveExp(c, scopes, s));
      StmtsSpec(ss, sc, s1)
    case IfElseStmt(c, thenDs, thenSs, elseDs, elseSs) =>
      var (sc1, s1) := DeclsSpec(thenDs, [map[]] + scopes, None, ResolveExp(c, scopes, s));
      var s2 := StmtsSpec(thenSs, sc1, s1);
      var (sc3, s3) := DeclsSpec(elseDs, [map[]] + scopes, None, s2);
      StmtsSpec(elseSs, sc3, s3)
    case WhileStmt(c, ds, ss) =>
      var (sc, s1) := DeclsSpec(ds, [map[]] + scopes, None, ResolveExp(c, scopes, s));
      StmtsSpec(ss, sc, s1)
    case ReadStmt(e) => ResolveExp(e, scopes, s)
    case WriteStmt(e) => ResolveExp(e, scopes, s)
    case CallStmt(c) => ResolveCall(c, scopes, s)
    case ReturnStmt(v) => if v.Some? then ResolveExp(v.value, scopes, s) else s
  }

  /** `ProgramNode.nameAnalysis`: the global declarations in a new one-scope table. */
  function ProgramSpec(p: Program, s: State): (res: (Scopes, State))
    requires Wf(s) && Ready([map[]], s)
    ensures |res.0| == 1 && Grows(s, res.1) && Ready(res.0, res.1)
  {
    DeclsSpec(p.decls, [map[]], None, s)
  }
}
