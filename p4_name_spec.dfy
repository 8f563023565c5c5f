/**
 * Name analysis of the fourth exercise (p4/ast.java, the `nameAnalysis`
 * methods) as pure functions of the scope stack and the analysis state. This
 * earlier pass differs from the fifth exercise's: it keeps a declaration
 * that is void, declares a function's name inside the function's own scope,
 * leaves a tuple's scope on the stack, opens a block's scope before its guard,
 * never links a use, and throws on tuple accesses and calls. The imperative
 * analyser in `P4NameAnalysis` is proved to compute exactly these functions.
 */
module P4NameSpec {
  import opened Wrappers
  import opened ErrMsg
  import opened Ast
  import opened SymTables
  import opened P4Sym

  type Scopes = seq<map<string, Sym>>

  /** An exception that escapes the pass and ends it. */
  datatype Fault =
    | Unsupported   // UnsupportedOperationException from a tuple access or a call
    | NullPointer   // NullPointerException from a `return` without a value

  /** `IdNode.mySymbol` of each declared identifier (keyed by node uid) and the diagnostics so far. */
  datatype State = State(mySymbol: map<nat, Sym>, diags: seq<Diag>)

  /** Where a pass over a declaration or statement leaves the scope stack and the state. */
  datatype Res = Res(scopes: Scopes, st: State, fault: Option<Fault>)

  /** `TypeNode.nameAnalysis()`: the fixed name of each type. */
  function TypeName(t: TypeNode): (s: string)
    ensures s in ["logical", "integer", "void", "tuple"]
    ensures s == "void" <==> t.VoidNode?
  {
    match t
    case LogicalNode => "logical"
    case IntegerNode => "integer"
    case VoidNode => "void"
    case TupleNode(_) => "tuple"
  }

  // ---------------------------------------------------------------- identifiers

  /**
   * `IdNode.nameAnalysis(T, sym, declType)`: the identifier records `sym`;
   * the name is bound in the innermost scope when it is not already bound
   * there. A void non-function is reported first, a duplicate (or an empty
   * table) second; a void declaration is still bound.
   */
  function Declare(id: Id, sym: Sym, declType: string, scopes: Scopes, st: State): (r: (Scopes, State))
    ensures r.1.mySymbol == st.mySymbol[id.uid := sym]
    ensures scopes != [] ==> |r.0| == |scopes| && r.0[1..] == scopes[1..]
    ensures r.0 != scopes <==> scopes != [] && id.name !in scopes[0]
    ensures r.1.diags == st.diags +
      (if declType != "function" && GetType(sym) == "void" then [Diag(id.line, id.col, NonFctnVoid)] else []) +
      (if r.0 == scopes then [Diag(id.line, id.col, MultiplyDeclared)] else [])
  {
    var badVar := declType != "function" && GetType(sym) == "void";
    var multVar := scopes == [] || id.name in scopes[0];
    var sc := if multVar then scopes else [scopes[0][id.name := sym]] + scopes[1..];
    var diags := st.diags +
      (if badVar then [Diag(id.line, id.col, NonFctnVoid)] else []) +
      (if multVar then [Diag(id.line, id.col, MultiplyDeclared)] else []);
    (sc, State(st.mySymbol[id.uid := sym], diags))
  }

  /**
   * `IdNode.nameAnalysis(T)`: an identifier found by neither lookup is
   * reported undeclared; nothing is linked, and an empty table (whose lookups
   * throw) reports nothing.
   */
  function Use(id: Id, scopes: Scopes, st: State): (r: State)
    ensures r.mySymbol == st.mySymbol
    ensures r == st || r.diags == st.diags + [Diag(id.line, id.col, Undeclared)]
    ensures r != st <==> scopes != [] && forall j :: 0 <= j < |scopes| ==> id.name !in scopes[j]
  {
    LookupIsInnermost(scopes, id.name);
    if scopes != [] && Lookup(scopes, id.name).None? then
      st.(diags := st.diags + [Diag(id.line, id.col, Undeclared)])
    else st
  }

  // ---------------------------------------------------------------- expressions

  /**
   * The expressions whose analysis throws: a tuple access or a call reached
   * through unary and binary operators. An assignment's operands other than
   * an identifier target are never visited.
   */
  predicate Throws(e: Exp)
  {
    match e
    case AccessExp(_) => true
    case CallExp(_) => true
    case UnaryMinus(x) => Throws(x)
    case Not(x) => Throws(x)
    case Binary(_, l, r) => Throws(l) || Throws(r)
    case _ => false
  }

  /** `AssignExpNode.nameAnalysis`: only a target that is an identifier is analysed. */
  function AssignSpec(a: Assign, scopes: Scopes, st: State): (r: State)
    ensures r.mySymbol == st.mySymbol && st.diags <= r.diags
    ensures !a.lhs.IdExp? ==> r == st
  {
    if a.lhs.IdExp? then Use(a.lhs.id, scopes, st) else st
  }

  /** `nameAnalysis` of every expression node; the scope stack is left as it is. */
  function ExpSpec(e: Exp, scopes: Scopes, st: State): (r: (State, Option<Fault>))
    ensures r.0.mySymbol == st.mySymbol && st.diags <= r.0.diags
    ensures r.1.Some? <==> Throws(e)
    ensures r.1.Some? ==> r.1 == Some(Unsupported)
  {
    match e
    case IdExp(id) => (Use(id, scopes, st), None)
    case AccessExp(_) => (st, Some(Unsupported))
    case CallExp(_) => (st, Some(Unsupported))
    case AssignExp(a) => (AssignSpec(a, scopes, st), None)
    case UnaryMinus(x) => ExpSpec(x, scopes, st)
    case Not(x) => ExpSpec(x, scopes, st)
    case Binary(_, l, r) =>
      var left := ExpSpec(l, scopes, st);
      if left.1.Some? then left else ExpSpec(r, scopes, left.0)
    case _ => (st, None)
  }

  // ---------------------------------------------------------------- scope depth

  /**
   * The net number of scopes analysing a declaration leaves on the stack: a
   * tuple's own scope and those of the tuples nested in it, or in a function
   * body or block.
   */
  function DeclPushes(d: Decl): nat
    decreases d, 2
  {
    match d
    case VarDecl(_, _, _) => 0
    case FctnDecl(_, _, _, body) => BodyPushes(body)
    case TupleDecl(_, fields) => 1 + DeclsPushes(fields)
  }

  function BodyPushes(b: Body): nat
    decreases b, 0
  {
    DeclsPushes(b.decls) + StmtsPushes(b.stmts)
  }

  function DeclsPushes(ds: seq<Decl>): nat
    decreases ds, 3
  {
    if ds == [] then 0 else DeclPushes(ds[0]) + DeclsPushes(ds[1..])
  }

  function StmtPushes(s: Stmt): nat
    decreases s, 3
  {
    match s
    case IfStmt(_, _, _) => ArmPushes(s, false)
    case IfElseStmt(_, _, _, _, _) => ArmPushes(s, false) + ArmPushes(s, true)
    case WhileStmt(_, _, _) => ArmPushes(s, false)
    case _ => 0
  }

  /** The scopes one arm of an `if`, `if`/`else` or `while` leaves behind. */
  function ArmPushes(s: Stmt, elseArm: bool): nat
    requires Opens(s)
    decreases s, 2
  {
    DeclsPushes(ArmDecls(s, elseArm)) + StmtsPushes(ArmStmts(s, elseArm))
  }

  function StmtsPushes(ss: seq<Stmt>): nat
    decreases ss, 3
  {
    if ss == [] then 0 else StmtPushes(ss[0]) + StmtsPushes(ss[1..])
  }

  // ---------------------------------------------------------------- declarations

  /** `FormalsListNode.nameAnalysis`: each formal is declared with the kind "formals". */
  function FormalsSpec(fs: seq<Formal>, scopes: Scopes, st: State): (r: (Scopes, State))
    ensures scopes != [] ==> |r.0| == |scopes| && r.0[1..] == scopes[1..]
    ensures st.diags <= r.1.diags && st.mySymbol.Keys <= r.1.mySymbol.Keys
    ensures forall i :: 0 <= i < |fs| ==> fs[i].id.uid in r.1.mySymbol
  {
    if fs == [] then (scopes, st)
    else
      var d := Declare(fs[0].id, NewSym(TypeName(fs[0].typ)), "formals", scopes, st);
      FormalsSpec(fs[1..], d.0, d.1)
  }

  /** `removeScope` with its `EmptySymTableException` caught, as every caller here does. */
  function Pop(scopes: Scopes): (r: Scopes)
    ensures scopes != [] ==> [scopes[0]] + r == scopes
    ensures scopes == [] ==> r == []
  {
    if scopes == [] then scopes else scopes[1..]
  }

  /** `DeclListNode.nameAnalysis`: the declarations in order, until one throws. */
  function DeclsSpec(ds: seq<Decl>, scopes: Scopes, st: State): (r: Res)
    ensures st.diags <= r.st.diags && st.mySymbol.Keys <= r.st.mySymbol.Keys
    decreases ds, 3
  {
    if ds == [] then Res(scopes, st, None)
    else
      var first := DeclSpec(ds[0], scopes, st);
      if first.fault.Some? then first else DeclsSpec(ds[1..], first.scopes, first.st)
  }

  /** `nameAnalysis` of each kind of declaration. */
  function DeclSpec(d: Decl, scopes: Scopes, st: State): (r: Res)
    ensures st.diags <= r.st.diags && st.mySymbol.Keys <= r.st.mySymbol.Keys
    decreases d, 2
    ensures d.VarDecl? ==> r.fault.None?
  {
    match d
    case VarDecl(t, id, _) =>
      var v := Declare(id, NewSym(TypeName(t)), "var", scopes, st);
      Res(v.0, v.1, None)
    case FctnDecl(_, _, _, _) => FctnDeclSpec(d, scopes, st)
    case TupleDecl(_, _) => TupleDeclSpec(d, scopes, st)
  }

  /**
   * `FctnDeclNode.nameAnalysis`: open a scope, declare the function's name
   * in it, then its formals, then analyse the body, and pop one scope. The
   * pop removes the innermost scope, which is the function's own only when
   * the body leaves no tuple scope behind.
   */
  function FctnDeclSpec(d: Decl, scopes: Scopes, st: State): (r: Res)
    ensures st.diags <= r.st.diags && st.mySymbol.Keys <= r.st.mySymbol.Keys
    requires d.FctnDecl?
    decreases d, 1
  {
    var named := Declare(d.id, NewSym(TypeName(d.ret)), "function", [map[]] + scopes, st);
    var withFormals := FormalsSpec(d.formals, named.0, named.1);
    var body := BodySpec(d.body, withFormals.0, withFormals.1);
    if body.fault.Some? then body else Res(Pop(body.scopes), body.st, None)
  }

  /** `FctnBodyNode.nameAnalysis`: the declarations, then the statements. */
  function BodySpec(b: Body, scopes: Scopes, st: State): (r: Res)
    ensures st.diags <= r.st.diags && st.mySymbol.Keys <= r.st.mySymbol.Keys
    decreases b, 0
  {
    var decls := DeclsSpec(b.decls, scopes, st);
    if decls.fault.Some? then decls else StmtsSpec(b.stmts, decls.scopes, decls.st)
  }

  /**
   * `TupleDeclNode.nameAnalysis`: declare the tuple's name, then open a scope
   * for its fields that is never closed, so the declarations after the tuple
   * land in it too.
   */
  function TupleDeclSpec(d: Decl, scopes: Scopes, st: State): (r: Res)
    ensures st.diags <= r.st.diags && st.mySymbol.Keys <= r.st.mySymbol.Keys
    requires d.TupleDecl?
    decreases d, 1
  {
    var named := Declare(d.id, NewSym("tuple"), "tuple", scopes, st);
    DeclsSpec(d.fields, [map[]] + named.0, named.1)
  }

  // ---------------------------------------------------------------- statements

  /** `StmtListNode.nameAnalysis`: the statements in order, until one throws. */
  function StmtsSpec(ss: seq<Stmt>, scopes: Scopes, st: State): (r: Res)
    ensures st.diags <= r.st.diags && st.mySymbol.Keys <= r.st.mySymbol.Keys
    decreases ss, 3
  {
    if ss == [] then Res(scopes, st, None)
    else
      var first := StmtSpec(ss[0], scopes, st);
      if first.fault.Some? then first else StmtsSpec(ss[1..], first.scopes, first.st)
  }

  /** An expression analysed as a statement's part: the scope stack is unchanged. */
  function ExpStmt(e: Exp, scopes: Scopes, st: State): (r: Res)
    ensures r.scopes == scopes && (r.fault.Some? <==> Throws(e))
    ensures st.diags <= r.st.diags && r.st.mySymbol == st.mySymbol
  {
    var x := ExpSpec(e, scopes, st);
    Res(scopes, x.0, x.1)
  }

  /** A statement that opens scopes: `if`, `if`/`else` and `while`. */
  predicate Opens(s: Stmt)
  {
    s.IfStmt? || s.IfElseStmt? || s.WhileStmt?
  }

  /** The declarations of one arm of a statement that opens scopes. */
  function ArmDecls(s: Stmt, elseArm: bool): seq<Decl>
    requires Opens(s)
  {
    if s.IfElseStmt? then (if elseArm then s.elseDecls else s.thenDecls) else s.decls
  }

  /** The statements of one arm of a statement that opens scopes. */
  function ArmStmts(s: Stmt, elseArm: bool): seq<Stmt>
    requires Opens(s)
  {
    if s.IfElseStmt? then (if elseArm then s.elseStmts else s.thenStmts) else s.stmts
  }

  /**
   * One arm of `if`, `while` or `if`/`else`: open a scope, analyse the guard
   * (first arm only) in it, then the arm's declarations and statements, and
   * pop one scope.
   */
  function ArmSpec(s: Stmt, elseArm: bool, scopes: Scopes, st: State): (r: Res)
    ensures st.diags <= r.st.diags && st.mySymbol.Keys <= r.st.mySymbol.Keys
    requires Opens(s)
    decreases s, 2
  {
    var inner := [map[]] + scopes;
    var guard := if elseArm then Res(inner, st, None) else ExpStmt(s.cond, inner, st);
    if guard.fault.Some? then guard
    else
      var body := ArmBody(s, elseArm, inner, guard.st);
      if body.fault.Some? then body else Res(Pop(body.scopes), body.st, None)
  }

  /** The declarations and then the statements of one arm. */
  function ArmBody(s: Stmt, elseArm: bool, scopes: Scopes, st: State): (r: Res)
    ensures st.diags <= r.st.diags && st.mySymbol.Keys <= r.st.mySymbol.Keys
    requires Opens(s)
    decreases s, 1
  {
    var decls := DeclsSpec(ArmDecls(s, elseArm), scopes, st);
    if decls.fault.Some? then decls else StmtsSpec(ArmStmts(s, elseArm), decls.scopes, decls.st)
  }

  /** `nameAnalysis` of each kind of statement. */
  function StmtSpec(s: Stmt, scopes: Scopes, st: State): (r: Res)
    ensures st.diags <= r.st.diags && st.mySymbol.Keys <= r.st.mySymbol.Keys
    decreases s, 3
  {
    match s
    case AssignStmt(a) => Res(scopes, AssignSpec(a, scopes, st), None)
    case PostIncStmt(e) => ExpStmt(e, scopes, st)
    case PostDecStmt(e) => ExpStmt(e, scopes, st)
    case IfStmt(_, _, _) => ArmSpec(s, false, scopes, st)
    case IfElseStmt(_, _, _, _, _) =>
      var thenPart := ArmSpec(s, false, scopes, st);
      if thenPart.fault.Some? then thenPart else ArmSpec(s, true, thenPart.scopes, thenPart.st)
    case WhileStmt(_, _, _) => ArmSpec(s, false, scopes, st)
    case ReadStmt(e) => ExpStmt(e, scopes, st)
    case WriteStmt(e) => ExpStmt(e, scopes, st)
    case CallStmt(_) => Res(scopes, st, Some(Unsupported))
    case ReturnStmt(v) => if v.Some? then ExpStmt(v.value, scopes, st) else Res(scopes, st, Some(NullPointer))
  }

  /** `ProgramNode.nameAnalysis(T)`: the top-level declarations in the table the driver passes. */
  function ProgramSpec(p: Program, scopes: Scopes, st: State): (r: Res)
    ensures st.diags <= r.st.diags && st.mySymbol.Keys <= r.st.mySymbol.Keys
  {
    DeclsSpec(p.decls, scopes, st)
  }
}
