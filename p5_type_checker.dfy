/**
 * The `typeChecker` methods of p5/ast.java as pure functions: given the tree
 * and the links name analysis left in it, the diagnostics the checker reports,
 * in order. A Java null link or failed cast the checker would run into is a
 * precondition here.
 */
module P5TypeChecker {
  import opened Wrappers
  import opened ErrMsg
  import opened Ast
  import opened P5Symbols

  // ---------------------------------------------------------------- positions and links

  /**
   * `lineNum()`: literals and identifiers carry their own position, a
   * colon-access reports its field's; every other expression inherits the
   * default, 0.
   */
  function Line(e: Exp): int
  {
    match e
    case TrueLit(l, _) => l
    case FalseLit(l, _) => l
    case IdExp(id) => id.line
    case IntLit(l, _, _) => l
    case StrLit(l, _, _) => l
    case AccessExp(a) => a.field.line
    case _ => 0
  }

  /** `charNum()`, the column counterpart of `Line`. */
  function Col(e: Exp): int
  {
    match e
    case TrueLit(_, c) => c
    case FalseLit(_, c) => c
    case IdExp(id) => id.col
    case IntLit(_, c, _) => c
    case StrLit(_, c, _) => c
    case AccessExp(a) => a.field.col
    case _ => 0
  }

  /** A diagnostic at an expression's position. */
  function At(e: Exp, msg: string): Diag
  {
    Diag(Line(e), Col(e), msg)
  }

  /** `IdNode.sym()` is not null. */
  predicate Linked(id: Id, st: State)
  {
    id.uid in st.idLinks && st.idLinks[id.uid] < |st.syms|
  }

  function SymOf(id: Id, st: State): SymRec
    requires Linked(id, st)
  {
    st.syms[st.idLinks[id.uid]]
  }

  /** `IdNode.sym().getType()`. */
  function IdType(id: Id, st: State): Type
    requires Linked(id, st)
  {
    SymType(SymOf(id, st))
  }

  /** `TupleAccessNode.sym()` is not null. */
  predicate AccessLinked(a: Access, st: State)
  {
    a.uid in st.accessLinks && st.accessLinks[a.uid] < |st.syms|
  }

  /** `TupleAccessNode.sym().getType()`. */
  function AccessType(a: Access, st: State): Type
    requires AccessLinked(a, st)
  {
    SymType(st.syms[st.accessLinks[a.uid]])
  }

  /** The callee is linked to a `FctnSym`, so the casts `(FctnSym) sym()` succeed. */
  predicate CalleeIsFctn(c: Call, st: State)
  {
    Linked(c.callee, st) && SymOf(c.callee, st).FctnSym?
  }

  // ---------------------------------------------------------------- operands

  /** The links the arithmetic and relational operand test dereferences. */
  predicate IntOperandOk(e: Exp, st: State)
  {
    match e
    case IdExp(id) => Linked(id, st)
    case CallExp(c) => Linked(c.callee, st)
    case _ => true
  }

  /**
   * The operand test of `+ - * /` and `< <= > >=`: an integer literal passes,
   * an identifier passes when its type is integer, a call passes when the
   * callee's own type (not its return type) is integer, and anything else is
   * reported at its position.
   */
  function IntOperand(e: Exp, st: State, msg: string): (ds: seq<Diag>)
    requires IntOperandOk(e, st)
    ensures ds == [] || ds == [At(e, msg)]
    ensures ds == [] <==> (e.IntLit? || (e.IdExp? && IdType(e.id, st).IntegerType?) ||
                           (e.CallExp? && IdType(e.call.callee, st).IntegerType?))
  {
    match e
    case IntLit(_, _, _) => []
    case IdExp(id) => if IdType(id, st).IntegerType? then [] else [At(e, msg)]
    case CallExp(c) => if IdType(c.callee, st).IntegerType? then [] else [At(e, msg)]
    case _ => [At(e, msg)]
  }

  /**
   * The operand test of `&` and `|`. Its guard, `!(e instanceof TrueNode) |
   * !(e instanceof FalseNode)`, holds for every operand, so only an identifier
   * of logical type passes; the literals `true` and `false` are reported.
   */
  function LogicalOperand(e: Exp, st: State): (ds: seq<Diag>)
    requires e.IdExp? ==> Linked(e.id, st)
    ensures ds == [] || ds == [At(e, LogicalNonBool)]
    ensures ds == [] <==> e.IdExp? && IdType(e.id, st).LogicalType?
  {
    if !e.TrueLit? || !e.FalseLit? then
      if e.IdExp? then
        if IdType(e.id, st).LogicalType? then [] else [At(e, LogicalNonBool)]
      else [At(e, LogicalNonBool)]
    else []
  }

  /** The links `OperandType` dereferences. */
  predicate OperandOk(e: Exp, st: State)
  {
    match e
    case IdExp(id) => Linked(id, st)
    case AccessExp(a) => AccessLinked(a, st)
    case CallExp(c) => CalleeIsFctn(c, st)
    case _ => true
  }

  /**
   * The type the equality and assignment checks give an operand: `None` (a
   * null `Type`) for an operand of any other shape.
   */
  function OperandType(e: Exp, st: State): (t: Option<Type>)
    requires OperandOk(e, st)
    ensures t.None? <==> !(e.IdExp? || e.TrueLit? || e.FalseLit? || e.IntLit? || e.StrLit? || e.AccessExp? || e.CallExp?)
  {
    match e
    case IdExp(id) => Some(IdType(id, st))
    case TrueLit(_, _) => Some(LogicalType)
    case FalseLit(_, _) => Some(LogicalType)
    case IntLit(_, _, _) => Some(IntegerType)
    case StrLit(_, _, _) => Some(StringType)
    case AccessExp(a) => Some(AccessType(a, st))
    case CallExp(c) => Some(SymOf(c.callee, st).returnType)
    case _ => None
  }

  /** Both operand types of an equality or assignment are known (the Java code calls `equals` on them). */
  predicate TypedPair(l: Exp, r: Exp, st: State)
  {
    OperandOk(l, st) && OperandOk(r, st) && OperandType(l, st).Some? && OperandType(r, st).Some?
  }

  // ---------------------------------------------------------------- operators

  /**
   * `==` and `~=`: a type mismatch is one "Mismatched type"; otherwise each
   * forbidden kind of operand (function, void, tuple variable, tuple name) is
   * reported on its own test. All at the left operand.
   */
  function Equality(l: Exp, r: Exp, st: State): (ds: seq<Diag>)
    requires TypedPair(l, r, st)
    ensures |ds| <= 1 && forall d :: d in ds ==> d.line == Line(l) && d.col == Col(l)
    ensures OperandType(l, st) != OperandType(r, st) ==> ds == [At(l, Mismatch)]
    ensures ds == [] <==> (OperandType(l, st) == OperandType(r, st) &&
                           (OperandType(l, st).value.IntegerType? || OperandType(l, st).value.LogicalType? ||
                            OperandType(l, st).value.StringType?))
  {
    var t1 := OperandType(l, st).value;
    var t2 := OperandType(r, st).value;
    if t1 != t2 then [At(l, Mismatch)]
    else
      (if t1.FctnType? then [At(l, EqFctn)] else []) +
      (if t1.VoidType? then [At(l, EqVoid)] else []) +
      (if t1.TupleType? then [At(l, EqTupleVar)] else []) +
      (if t1.TupleDefType? then [At(l, EqTupleName)] else [])
  }

  /** What the checker of a binary operator dereferences. */
  predicate BinaryOk(op: BinOp, l: Exp, r: Exp, st: State)
  {
    if IsArith(op) || IsRelational(op) then IntOperandOk(l, st) && IntOperandOk(r, st)
    else if IsEquality(op) then TypedPair(l, r, st)
    else (l.IdExp? ==> Linked(l.id, st)) && (r.IdExp? ==> Linked(r.id, st))
  }

  /** `typeChecker()` of each binary operator node: both operands are checked, left then right. */
  function BinaryCheck(op: BinOp, l: Exp, r: Exp, st: State): (ds: seq<Diag>)
    requires BinaryOk(op, l, r, st)
    ensures |ds| <= 2
    ensures IsArith(op) ==> forall d :: d in ds ==> d.msg == ArithNonInt
    ensures IsRelational(op) ==> forall d :: d in ds ==> d.msg == RelNonInt
    ensures IsLogical(op) ==> forall d :: d in ds ==> d.msg == LogicalNonBool
  {
    if IsArith(op) then IntOperand(l, st, ArithNonInt) + IntOperand(r, st, ArithNonInt)
    else if IsRelational(op) then IntOperand(l, st, RelNonInt) + IntOperand(r, st, RelNonInt)
    else if IsEquality(op) then Equality(l, r, st)
    else LogicalOperand(l, st) + LogicalOperand(r, st)
  }

  /** `NotNode.typeChecker`: its operand is cast to `IdNode`. */
  function NotOperand(x: Exp, st: State): (ds: seq<Diag>)
    requires x.IdExp? && Linked(x.id, st)
    ensures ds == [] <==> IdType(x.id, st).LogicalType?
    ensures ds == [] || ds == [At(x, LogicalNonBool)]
  {
    if IdType(x.id, st).LogicalType? then [] else [At(x, LogicalNonBool)]
  }

  /** What `AssignExpNode.typeChecker` dereferences. */
  predicate AssignOk(a: Assign, st: State)
  {
    if a.rhs.Binary? then BinaryOk(a.rhs.op, a.rhs.left, a.rhs.right, st) else TypedPair(a.rhs, a.lhs, st)
  }

  /**
   * `AssignExpNode.typeChecker`: a binary right-hand side is checked on its own
   * and nothing else is; otherwise a type mismatch is one "Mismatched type",
   * and a match reports assignment to a function, a tuple variable or a tuple
   * name, each on its own test. All at the left-hand side.
   */
  function AssignCheck(a: Assign, st: State): (ds: seq<Diag>)
    requires AssignOk(a, st)
    ensures a.rhs.Binary? ==> ds == BinaryCheck(a.rhs.op, a.rhs.left, a.rhs.right, st)
    ensures !a.rhs.Binary? ==> |ds| <= 1 && forall d :: d in ds ==> d.line == Line(a.lhs) && d.col == Col(a.lhs)
    ensures !a.rhs.Binary? && OperandType(a.rhs, st) != OperandType(a.lhs, st) ==> ds == [At(a.lhs, Mismatch)]
  {
    if a.rhs.Binary? then BinaryCheck(a.rhs.op, a.rhs.left, a.rhs.right, st)
    else
      var t1 := OperandType(a.rhs, st).value;
      var t2 := OperandType(a.lhs, st).value;
      if t1 != t2 then [At(a.lhs, Mismatch)]
      else
        (if t1.FctnType? then [At(a.lhs, AssignFctn)] else []) +
        (if t1.TupleType? then [At(a.lhs, AssignTupleVar)] else []) +
        (if t1.TupleDefType? then [At(a.lhs, AssignTupleName)] else [])
  }

  // ---------------------------------------------------------------- calls

  /** An argument shape `ExpListNode.typeChecker` gives a type to, with its link present. */
  predicate ArgOk(e: Exp, st: State)
  {
    match e
    case IdExp(id) => Linked(id, st)
    case IntLit(_, _, _) => true
    case StrLit(_, _, _) => true
    case AccessExp(a) => AccessLinked(a, st)
    case _ => false
  }

  /** The type `ExpListNode.typeChecker` gives an argument. */
  function ArgType(e: Exp, st: State): Type
    requires ArgOk(e, st)
  {
    match e
    case IdExp(id) => IdType(id, st)
    case IntLit(_, _, _) => IntegerType
    case StrLit(_, _, _) => StringType
    case AccessExp(a) => AccessType(a, st)
  }

  /**
   * The outcome of checking a call, a statement or more: the diagnostics
   * reported, and whether the pass then ended in the uncaught
   * `IndexOutOfBoundsException` of `params.get(i)`, an argument position the
   * callee's parameter-type list does not reach.
   */
  datatype Checked = Checked(diags: seq<Diag>, aborted: bool)

  /** One check, then the next; once the pass has aborted, nothing more is checked. */
  function Then(a: Checked, b: Checked): (r: Checked)
    ensures a.diags <= r.diags
    ensures r.aborted <==> a.aborted || b.aborted
    ensures a.aborted ==> r == a
    ensures !a.aborted ==> r.diags == a.diags + b.diags
  {
    if a.aborted then a else Checked(a.diags + b.diags, b.aborted)
  }

  /**
   * `ExpListNode.typeChecker(params)`: each argument against the parameter
   * type at its position, every position checked. An argument past the end
   * of `params` ends the pass; the argument's own type is needed only before
   * that.
   */
  function Args(args: seq<Exp>, params: seq<Type>, st: State): (r: Checked)
    requires forall i :: 0 <= i < |args| && i < |params| ==> ArgOk(args[i], st)
    ensures |r.diags| <= |args| && |r.diags| <= |params|
    ensures forall d :: d in r.diags ==> d.msg == ArgMismatch
    ensures r.aborted <==> |args| > |params|
  {
    if args == [] then Checked([], false)
    else if params == [] then Checked([], true)
    else
      var rest := Args(args[1..], params[1..], st);
      Checked((if ArgType(args[0], st) != params[0] then [At(args[0], ArgMismatch)] else []) + rest.diags, rest.aborted)
  }

  /** What `CallExpNode.typeChecker()` dereferences and casts. */
  predicate CallOk(c: Call, st: State)
  {
    && Linked(c.callee, st)
    && (IdType(c.callee, st).FctnType? ==> SymOf(c.callee, st).FctnSym?)
    && (IdType(c.callee, st).FctnType? && |c.args| == SymOf(c.callee, st).numParams ==>
          forall i :: 0 <= i < |c.args| && i < |SymOf(c.callee, st).paramTypes| ==> ArgOk(c.args[i], st))
  }

  /**
   * `CallExpNode.typeChecker()`: a callee that is not a function is one error;
   * a wrong number of arguments is one error; otherwise the arguments are
   * checked against the parameter types, and the pass ends when there are
   * fewer parameter types than parameters.
   */
  function CallCheck(c: Call, st: State): (r: Checked)
    requires CallOk(c, st)
    ensures !IdType(c.callee, st).FctnType? ==> r == Checked([Diag(c.callee.line, c.callee.col, CallNonFctn)], false)
    ensures IdType(c.callee, st).FctnType? && |c.args| != SymOf(c.callee, st).numParams ==>
      r == Checked([Diag(c.callee.line, c.callee.col, WrongArgCount)], false)
    ensures IdType(c.callee, st).FctnType? && |c.args| == SymOf(c.callee, st).numParams ==>
      (forall d :: d in r.diags ==> d.msg == ArgMismatch) &&
      (r.aborted <==> SymOf(c.callee, st).numParams > |SymOf(c.callee, st).paramTypes|)
  {
    var sym := SymOf(c.callee, st);
    if !SymType(sym).FctnType? then Checked([Diag(c.callee.line, c.callee.col, CallNonFctn)], false)
    else if |c.args| != sym.numParams then Checked([Diag(c.callee.line, c.callee.col, WrongArgCount)], false)
    else Args(c.args, sym.paramTypes, st)
  }

  /** `CallExpNode.typeChecker(true)`, the check of a call written out. */
  function WriteCall(c: Call, st: State): (ds: seq<Diag>)
    requires CalleeIsFctn(c, st)
    ensures ds != [] <==> SymOf(c.callee, st).returnType.VoidType?
    ensures ds == [] || ds == [Diag(c.callee.line, c.callee.col, WriteVoid)]
  {
    if SymOf(c.callee, st).returnType.VoidType? then [Diag(c.callee.line, c.callee.col, WriteVoid)] else []
  }

  // ---------------------------------------------------------------- statements

  /**
   * The guard check of `if`, `if`/`else` and `while`: a comparison, a logical
   * operator or a negation is checked as such; any other guard is reported as
   * non-logical. The body is not looked at.
   */
  predicate GuardOk(c: Exp, st: State)
  {
    match c
    case Binary(op, l, r) => !IsArith(op) ==> BinaryOk(op, l, r, st)
    case Not(x) => x.IdExp? && Linked(x.id, st)
    case _ => true
  }

  function Guard(c: Exp, msg: string, st: State): (ds: seq<Diag>)
    requires GuardOk(c, st)
    ensures (c.Binary? && IsArith(c.op)) || !(c.Binary? || c.Not?) ==> ds == [At(c, msg)]
  {
    match c
    case Binary(op, l, r) => if IsArith(op) then [At(c, msg)] else BinaryCheck(op, l, r, st)
    case Not(x) => NotOperand(x, st)
    case _ => [At(c, msg)]
  }

  /** `ReadStmtNode` and `WriteStmtNode`: the three kinds of name that cannot be read or written. */
  function NameUse(e: Exp, st: State, fctnMsg: string, tupleVarMsg: string, tupleNameMsg: string): (ds: seq<Diag>)
    requires e.IdExp? && Linked(e.id, st)
    ensures |ds| <= 1
    ensures ds == [] <==> !(IdType(e.id, st).FctnType? || IdType(e.id, st).TupleType? || IdType(e.id, st).TupleDefType?)
  {
    var t := IdType(e.id, st);
    (if t.FctnType? then [At(e, fctnMsg)] else []) +
    (if t.TupleType? then [At(e, tupleVarMsg)] else []) +
    (if t.TupleDefType? then [At(e, tupleNameMsg)] else [])
  }

  /** The shapes `ReturnStmtNode.typeChecker` gives a type to, with their links. */
  predicate ReturnValueOk(e: Exp, st: State)
  {
    match e
    case IdExp(id) => Linked(id, st)
    case TrueLit(_, _) => true
    case FalseLit(_, _) => true
    case IntLit(_, _, _) => true
    case StrLit(_, _, _) => true
    case AccessExp(a) => AccessLinked(a, st)
    case _ => false
  }

  /** `ReturnStmtNode.typeChecker(symFctn)` against the enclosing function's return type. */
  function Return(v: Option<Exp>, returnType: Type, st: State): (ds: seq<Diag>)
    requires !returnType.VoidType? && v.Some? ==> ReturnValueOk(v.value, st)
    ensures |ds| <= 1
    ensures returnType.VoidType? ==> (ds != [] <==> v.Some?)
    ensures returnType.VoidType? && v.Some? ==> ds == [At(v.value, ReturnInVoid)]
    ensures !returnType.VoidType? && v.None? ==> ds == [Diag(0, 0, ReturnMissing)]
    ensures !returnType.VoidType? && v.Some? ==>
      (ds != [] <==> OperandType(v.value, st) != Some(returnType)) &&
      (ds != [] ==> ds == [At(v.value, ReturnWrongType)])
  {
    if returnType.VoidType? then
      if v.Some? then [At(v.value, ReturnInVoid)] else []
    else if v.None? then [Diag(0, 0, ReturnMissing)]
    else if OperandType(v.value, st) != Some(returnType) then [At(v.value, ReturnWrongType)]
    else []
  }

  /**
   * What checking a statement dereferences. `returnType` is the enclosing
   * function's return type, or `None` when its `mySym` is null, which only a
   * `return` reaches.
   */
  predicate StmtOk(s: Stmt, returnType: Option<Type>, st: State)
  {
    match s
    case AssignStmt(a) => AssignOk(a, st)
    case PostIncStmt(e) => e.IdExp? ==> Linked(e.id, st)
    case PostDecStmt(e) => e.IdExp? ==> Linked(e.id, st)
    case IfStmt(c, _, _) => GuardOk(c, st)
    case IfElseStmt(c, _, _, _, _) => GuardOk(c, st)
    case WhileStmt(c, _, _) => GuardOk(c, st)
    case ReadStmt(e) => e.IdExp? ==> Linked(e.id, st)
    case WriteStmt(e) => (e.IdExp? ==> Linked(e.id, st)) && (e.CallExp? ==> CalleeIsFctn(e.call, st))
    case CallStmt(c) => CallOk(c, st)
    case ReturnStmt(v) => returnType.Some? && (!returnType.value.VoidType? && v.Some? ==> ReturnValueOk(v.value, st))
  }

  /** The diagnostics of a statement other than a call statement, which never ends the pass. */
  function StmtDiags(s: Stmt, returnType: Option<Type>, st: State): (ds: seq<Diag>)
    requires !s.CallStmt? && StmtOk(s, returnType, st)
  {
    match s
    case AssignStmt(a) => AssignCheck(a, st)
    case PostIncStmt(e) => if e.IdExp? && !IdType(e.id, st).IntegerType? then [At(e, ArithNonInt)] else []
    case PostDecStmt(e) => if e.IdExp? && !IdType(e.id, st).IntegerType? then [At(e, ArithNonInt)] else []
    case IfStmt(c, _, _) => Guard(c, IfNonBool, st)
    case IfElseStmt(c, _, _, _, _) => Guard(c, IfNonBool, st)
    case WhileStmt(c, _, _) => Guard(c, WhileNonBool, st)
    case ReadStmt(e) => if e.IdExp? then NameUse(e, st, ReadFctn, ReadTupleVar, ReadTupleName) else []
    case WriteStmt(e) =>
      if e.IdExp? then NameUse(e, st, WriteFctn, WriteTupleVar, WriteTupleName)
      else if e.CallExp? then WriteCall(e.call, st)
      else []
    case ReturnStmt(v) => Return(v, returnType.value, st)
  }

  /** `typeChecker()` of each statement; a `return` is checked against the enclosing function's return type. */
  function StmtCheck(s: Stmt, returnType: Option<Type>, st: State): (r: Checked)
    requires StmtOk(s, returnType, st)
    ensures r.aborted ==> s.CallStmt?
  {
    if s.CallStmt? then CallCheck(s.call, st) else Checked(StmtDiags(s, returnType, st), false)
  }

  /** `StmtListNode.typeChecker(symFctn)`: the statements in order, up to the first that ends the pass. */
  function StmtsCheck(ss: seq<Stmt>, returnType: Option<Type>, st: State): (r: Checked)
    requires forall i :: 0 <= i < |ss| ==> StmtOk(ss[i], returnType, st)
  {
    if ss == [] then Checked([], false) else Then(StmtCheck(ss[0], returnType, st), StmtsCheck(ss[1..], returnType, st))
  }

  /** `FctnDeclNode.mySym`'s return type, or `None` when name analysis left it null. */
  function FctnReturn(id: Id, st: State): Option<Type>
  {
    if id.uid in st.fctnLinks && st.fctnLinks[id.uid] < |st.syms| && st.syms[st.fctnLinks[id.uid]].FctnSym?
    then Some(st.syms[st.fctnLinks[id.uid]].returnType)
    else None
  }

  /** What checking a declaration dereferences: each function's statements, against its `mySym`. */
  predicate DeclOk(d: Decl, st: State)
  {
    match d
    case FctnDecl(_, id, _, body) =>
      && DeclsOk(body.decls, st)
      && forall i :: 0 <= i < |body.stmts| ==> StmtOk(body.stmts[i], FctnReturn(id, st), st)
    case _ => true
  }

  predicate DeclsOk(ds: seq<Decl>, st: State)
  {
    forall i :: 0 <= i < |ds| ==> DeclOk(ds[i], st)
  }

  /**
   * `typeChecker()` of each declaration: only a function declaration checks
   * anything, its body's declarations and then its statements.
   */
  function DeclCheck(d: Decl, st: State): (r: Checked)
    requires DeclOk(d, st)
    ensures !d.FctnDecl? ==> r == Checked([], false)
  {
    match d
    case FctnDecl(_, id, _, body) => Then(DeclsCheck(body.decls, st), StmtsCheck(body.stmts, FctnReturn(id, st), st))
    case _ => Checked([], false)
  }

  function DeclsCheck(ds: seq<Decl>, st: State): (r: Checked)
    requires DeclsOk(ds, st)
  {
    if ds == [] then Checked([], false) else Then(DeclCheck(ds[0], st), DeclsCheck(ds[1..], st))
  }

  /** `ProgramNode.typeChecker`. */
  function ProgramCheck(p: Program, st: State): (r: Checked)
    requires DeclsOk(p.decls, st)
  {
    DeclsCheck(p.decls, st)
  }
}

/** Properties of the type checker. */
module P5TypeCheckerFacts {
  import opened Wrappers
  import opened ErrMsg
  import opened Ast
  import opened P5Symbols
  import opened P5TypeChecker

  /**
   * When the operand types of `==` or `~=` agree, "Mismatched type" is not
   * reported and each forbidden category is reported exactly when the shared
   * type belongs to it.
   */
  lemma EqualityCategories(l: Exp, r: Exp, st: State)
    requires TypedPair(l, r, st)
    requires OperandType(l, st) == OperandType(r, st)
    ensures var ds := Equality(l, r, st); var t := OperandType(l, st).value;
      && At(l, Mismatch) !in ds
      && (At(l, EqFctn) in ds <==> t.FctnType?)
      && (At(l, EqVoid) in ds <==> t.VoidType?)
      && (At(l, EqTupleVar) in ds <==> t.TupleType?)
      && (At(l, EqTupleName) in ds <==> t.TupleDefType?)
  {
  }

  /** The same for an assignment whose right-hand side is not a binary expression. */
  lemma AssignCategories(a: Assign, st: State)
    requires AssignOk(a, st) && !a.rhs.Binary?
    requires OperandType(a.rhs, st) == OperandType(a.lhs, st)
    ensures var ds := AssignCheck(a, st); var t := OperandType(a.lhs, st).value;
      && At(a.lhs, Mismatch) !in ds
      && (At(a.lhs, AssignFctn) in ds <==> t.FctnType?)
      && (At(a.lhs, AssignTupleVar) in ds <==> t.TupleType?)
      && (At(a.lhs, AssignTupleName) in ds <==> t.TupleDefType?)
      && (ds == [] <==> !(t.FctnType? || t.TupleType? || t.TupleDefType?))
  {
  }

  /**
   * An assignment whose right-hand side is a binary expression is checked
   * without looking at its left-hand side.
   */
  lemma AssignBinaryIgnoresTarget(lhs1: Exp, lhs2: Exp, rhs: Exp, st: State)
    requires rhs.Binary? && BinaryOk(rhs.op, rhs.left, rhs.right, st)
    ensures AssignCheck(Assign(lhs1, rhs), st) == AssignCheck(Assign(lhs2, rhs), st)
  {
  }

  /**
   * Every argument position the parameter types reach is checked: a
   * diagnostic is reported at an argument exactly when its type differs from
   * the parameter type at the same position.
   */
  lemma {:induction false} ArgsReportEveryMismatch(args: seq<Exp>, params: seq<Type>, st: State, d: Diag)
    requires forall i :: 0 <= i < |args| && i < |params| ==> ArgOk(args[i], st)
    ensures d in Args(args, params, st).diags <==>
      exists i :: 0 <= i < |args| && i < |params| && ArgType(args[i], st) != params[i] && d == At(args[i], ArgMismatch)
  {
    if args != [] && params != [] {
      ArgsReportEveryMismatch(args[1..], params[1..], st, d);
      if d in Args(args[1..], params[1..], st).diags {
        var i :| 0 <= i < |args[1..]| && i < |params[1..]| && ArgType(args[1..][i], st) != params[1..][i] && d == At(args[1..][i], ArgMismatch);
        assert ArgType(args[i + 1], st) != params[i + 1] && d == At(args[i + 1], ArgMismatch);
      }
      if exists i :: 0 <= i < |args| && i < |params| && ArgType(args[i], st) != params[i] && d == At(args[i], ArgMismatch) {
        var i :| 0 <= i < |args| && i < |params| && ArgType(args[i], st) != params[i] && d == At(args[i], ArgMismatch);
        if i > 0 {
          assert ArgType(args[1..][i - 1], st) != params[1..][i - 1] && d == At(args[1..][i - 1], ArgMismatch);
        }
      }
    }
  }

  /**
   * A call whose callee is a function of the right arity is reported on its
   * arguments only, every position the parameter types reach.
   */
  lemma CallChecksArguments(c: Call, st: State, d: Diag)
    requires CallOk(c, st) && IdType(c.callee, st).FctnType? && |c.args| == SymOf(c.callee, st).numParams
    ensures var params := SymOf(c.callee, st).paramTypes;
      d in CallCheck(c, st).diags <==>
      exists i :: 0 <= i < |c.args| && i < |params| && ArgType(c.args[i], st) != params[i] && d == At(c.args[i], ArgMismatch)
  {
    ArgsReportEveryMismatch(c.args, SymOf(c.callee, st).paramTypes, st, d);
  }

  /**
   * A call ends the pass exactly when its callee is a function called with
   * `numParams` arguments but holding fewer parameter types than that (a void
   * or repeated formal was not added to them).
   */
  lemma CallAbortsIff(c: Call, st: State)
    requires CallOk(c, st)
    ensures CallCheck(c, st).aborted <==>
      IdType(c.callee, st).FctnType? && |c.args| == SymOf(c.callee, st).numParams &&
      |SymOf(c.callee, st).paramTypes| < SymOf(c.callee, st).numParams
  {
  }

  /**
   * The guard of `&` and `|` operands rejects the literals `true` and `false`
   * as non-logical.
   */
  lemma LogicalLiteralsRejected(line: int, col: int, other: Exp, st: State)
    requires other.IdExp? ==> Linked(other.id, st)
    ensures BinaryCheck(And, TrueLit(line, col), other, st)[0] == Diag(line, col, LogicalNonBool)
    ensures BinaryCheck(Or, FalseLit(line, col), other, st)[0] == Diag(line, col, LogicalNonBool)
  {
  }

  /**
   * A call operand of an arithmetic operator is judged by the callee symbol's
   * own type, which is the function type, so even a call returning an integer
   * is reported, at position (0, 0).
   */
  lemma CallOperandRejected(c: Call, other: Exp, st: State)
    requires CalleeIsFctn(c, st) && SymOf(c.callee, st).returnType.IntegerType?
    requires IntOperandOk(other, st)
    ensures BinaryCheck(Plus, CallExp(c), other, st)[0] == Diag(0, 0, ArithNonInt)
    ensures BinaryCheck(Less, CallExp(c), other, st)[0] == Diag(0, 0, RelNonInt)
  {
  }

  /** `if`, `if`/`else` and `while` are checked on their guard alone: the bodies never matter. */
  lemma GuardOnly(c: Exp, ds1: seq<Decl>, ss1: seq<Stmt>, ds2: seq<Decl>, ss2: seq<Stmt>, rt: Option<Type>, st: State)
    requires GuardOk(c, st)
    ensures StmtCheck(IfStmt(c, ds1, ss1), rt, st) == StmtCheck(IfStmt(c, [], []), rt, st)
    ensures StmtCheck(IfElseStmt(c, ds1, ss1, ds2, ss2), rt, st) == StmtCheck(IfStmt(c, [], []), rt, st)
    ensures StmtCheck(WhileStmt(c, ds1, ss1), rt, st) == Checked(Guard(c, WhileNonBool, st), false)
  {
  }

  /**
   * Checking a statement list reports the diagnostics of its parts, in order,
   * and stops at the first part that ends the pass.
   */
  lemma {:induction false} StmtsCheckAppend(ss1: seq<Stmt>, ss2: seq<Stmt>, rt: Option<Type>, st: State)
    requires forall i :: 0 <= i < |ss1| ==> StmtOk(ss1[i], rt, st)
    requires forall i :: 0 <= i < |ss2| ==> StmtOk(ss2[i], rt, st)
    ensures forall i :: 0 <= i < |ss1 + ss2| ==> StmtOk((ss1 + ss2)[i], rt, st)
    ensures StmtsCheck(ss1 + ss2, rt, st) == Then(StmtsCheck(ss1, rt, st), StmtsCheck(ss2, rt, st))
  {
    if ss1 == [] {
      assert ss1 + ss2 == ss2;
    } else {
      assert (ss1 + ss2)[0] == ss1[0] && (ss1 + ss2)[1..] == ss1[1..] + ss2;
      StmtsCheckAppend(ss1[1..], ss2, rt, st);
      var first, rest, second := StmtCheck(ss1[0], rt, st), StmtsCheck(ss1[1..], rt, st), StmtsCheck(ss2, rt, st);
      assert StmtsCheck(ss1 + ss2, rt, st) == Then(first, Then(rest, second));
      ThenAssoc(first, rest, second);
    }
  }

  /** Sequencing checks is associative. */
  lemma ThenAssoc(a: Checked, b: Checked, c: Checked)
    ensures Then(Then(a, b), c) == Then(a, Then(b, c))
  {
    if !a.aborted && !b.aborted {
      assert (a.diags + b.diags) + c.diags == a.diags + (b.diags + c.diags);
    }
  }

  /** A statement list ends the pass iff one of its statements does. */
  lemma {:induction false} AbortsIffSomeStmtAborts(ss: seq<Stmt>, rt: Option<Type>, st: State)
    requires forall i :: 0 <= i < |ss| ==> StmtOk(ss[i], rt, st)
    ensures StmtsCheck(ss, rt, st).aborted <==> exists i :: 0 <= i < |ss| && StmtCheck(ss[i], rt, st).aborted
  {
    if ss != [] {
      AbortsIffSomeStmtAborts(ss[1..], rt, st);
      if StmtsCheck(ss[1..], rt, st).aborted {
        var j :| 0 <= j < |ss[1..]| && StmtCheck(ss[1..][j], rt, st).aborted;
        assert ss[j + 1] == ss[1..][j];
      }
      if exists i :: 0 <= i < |ss| && StmtCheck(ss[i], rt, st).aborted {
        var i :| 0 <= i < |ss| && StmtCheck(ss[i], rt, st).aborted;
        if i > 0 {
          assert ss[1..][i - 1] == ss[i];
        }
      }
    }
  }

  /** Once a statement ends the pass, the statements after it report nothing. */
  lemma {:induction false} AbortStopsChecking(ss: seq<Stmt>, i: nat, rt: Option<Type>, st: State)
    requires forall j :: 0 <= j < |ss| ==> StmtOk(ss[j], rt, st)
    requires i < |ss| && StmtCheck(ss[i], rt, st).aborted
    ensures StmtsCheck(ss, rt, st) == StmtsCheck(ss[..i + 1], rt, st)
  {
    var pre := ss[..i + 1];
    assert pre[0] == ss[0];
    if i > 0 {
      assert ss[1..][i - 1] == ss[i];
      AbortStopsChecking(ss[1..], i - 1, rt, st);
      assert pre[1..] == ss[1..][..i];
    } else {
      assert pre[1..] == [];
    }
  }

  /**
   * The enclosing function's return type matters to `return` statements only:
   * a list without one reports the same whatever `mySym` holds, even null.
   */
  lemma {:induction false} ReturnTypeOnlyForReturns(ss: seq<Stmt>, rt1: Option<Type>, rt2: Option<Type>, st: State)
    requires forall i :: 0 <= i < |ss| ==> !ss[i].ReturnStmt? && StmtOk(ss[i], rt1, st)
    ensures forall i :: 0 <= i < |ss| ==> StmtOk(ss[i], rt2, st)
    ensures StmtsCheck(ss, rt1, st) == StmtsCheck(ss, rt2, st)
  {
    if ss != [] {
      ReturnTypeOnlyForReturns(ss[1..], rt1, rt2, st);
    }
  }

  /**
   * `++` and `--` report one "Arithmetic operator used with non-integer
   * operand", at the operand, exactly when the operand is an identifier whose
   * type is not integer; any other operand is not checked.
   */
  lemma IncDecNeedInteger(e: Exp, rt: Option<Type>, st: State)
    requires e.IdExp? ==> Linked(e.id, st)
    ensures StmtCheck(PostIncStmt(e), rt, st) == StmtCheck(PostDecStmt(e), rt, st)
    ensures !StmtCheck(PostIncStmt(e), rt, st).aborted
    ensures StmtCheck(PostIncStmt(e), rt, st).diags != [] <==> e.IdExp? && !IdType(e.id, st).IntegerType?
    ensures StmtCheck(PostIncStmt(e), rt, st).diags != [] ==> StmtCheck(PostIncStmt(e), rt, st).diags == [At(e, ArithNonInt)]
  {
  }

  /**
   * Reading or writing a function name, a tuple variable or a tuple name
   * reports that kind, at the identifier; an identifier of any other type is
   * accepted.
   */
  lemma ReadWriteTargets(x: Id, rt: Option<Type>, st: State)
    requires Linked(x, st)
    ensures var t := IdType(x, st);
      t.FctnType? ==> StmtCheck(ReadStmt(IdExp(x)), rt, st).diags == [At(IdExp(x), ReadFctn)] &&
                      StmtCheck(WriteStmt(IdExp(x)), rt, st).diags == [At(IdExp(x), WriteFctn)]
    ensures var t := IdType(x, st);
      t.TupleType? ==> StmtCheck(ReadStmt(IdExp(x)), rt, st).diags == [At(IdExp(x), ReadTupleVar)] &&
                       StmtCheck(WriteStmt(IdExp(x)), rt, st).diags == [At(IdExp(x), WriteTupleVar)]
    ensures var t := IdType(x, st);
      t.TupleDefType? ==> StmtCheck(ReadStmt(IdExp(x)), rt, st).diags == [At(IdExp(x), ReadTupleName)] &&
                          StmtCheck(WriteStmt(IdExp(x)), rt, st).diags == [At(IdExp(x), WriteTupleName)]
    ensures var t := IdType(x, st);
      t.IntegerType? || t.LogicalType? || t.StringType? ==>
        StmtCheck(ReadStmt(IdExp(x)), rt, st).diags == [] && StmtCheck(WriteStmt(IdExp(x)), rt, st).diags == []
  {
  }

  /** Only function declarations are checked: declarations that contain no function report nothing. */
  lemma {:induction false} OnlyFunctionsChecked(ds: seq<Decl>, st: State)
    requires forall i :: 0 <= i < |ds| ==> !ds[i].FctnDecl?
    ensures DeclsCheck(ds, st) == Checked([], false)
  {
    if ds != [] {
      OnlyFunctionsChecked(ds[1..], st);
    }
  }

  /**
   * The diagnostics of a declaration list are those of its declarations, in
   * order, up to the first that ends the pass.
   */
  lemma {:induction false} DeclsCheckAppend(ds1: seq<Decl>, ds2: seq<Decl>, st: State)
    requires DeclsOk(ds1, st) && DeclsOk(ds2, st)
    ensures DeclsOk(ds1 + ds2, st)
    ensures DeclsCheck(ds1 + ds2, st) == Then(DeclsCheck(ds1, st), DeclsCheck(ds2, st))
  {
    assert DeclsOk(ds1 + ds2, st) by {
      forall i | 0 <= i < |ds1 + ds2|
        ensures DeclOk((ds1 + ds2)[i], st)
      {
        if i >= |ds1| {
          assert (ds1 + ds2)[i] == ds2[i - |ds1|];
        }
      }
    }
    if ds1 != [] {
      assert (ds1 + ds2)[0] == ds1[0] && (ds1 + ds2)[1..] == ds1[1..] + ds2;
      DeclsCheckAppend(ds1[1..], ds2, st);
      var first, rest, second := DeclCheck(ds1[0], st), DeclsCheck(ds1[1..], st), DeclsCheck(ds2, st);
      assert DeclsCheck(ds1 + ds2, st) == Then(first, Then(rest, second));
      ThenAssoc(first, rest, second);
    } else {
      assert ds1 + ds2 == ds2;
    }
  }
}
