/**
 * The abstract syntax tree of the language, as built by the parser of the fourth
 * and fifth exercises (p4/ast.java and p5/ast.java share these node shapes).
 * Every identifier and every colon-access carries a `uid`, standing for the
 * identity of its Java node object: the links name analysis stores in nodes are
 * kept in maps keyed by it.
 */
module Ast {
  import opened Wrappers

  /** IdNode: source position and name. */
  datatype Id = Id(uid: nat, line: int, col: int, name: string)

  /** LogicalNode, IntegerNode, VoidNode and TupleNode (a tuple type named by an identifier). */
  datatype TypeNode = LogicalNode | IntegerNode | VoidNode | TupleNode(tupleId: Id)

  datatype Program = Program(decls: seq<Decl>)

  /** VarDeclNode (its size field is unused), FctnDeclNode and TupleDeclNode. */
  datatype Decl =
    | VarDecl(typ: TypeNode, id: Id, size: int)
    | FctnDecl(ret: TypeNode, id: Id, formals: seq<Formal>, body: Body)
    | TupleDecl(id: Id, fields: seq<Decl>)

  datatype Formal = Formal(typ: TypeNode, id: Id)

  datatype Body = Body(decls: seq<Decl>, stmts: seq<Stmt>)

  datatype Stmt =
    | AssignStmt(assign: Assign)
    | PostIncStmt(exp: Exp)
    | PostDecStmt(exp: Exp)
    | IfStmt(cond: Exp, decls: seq<Decl>, stmts: seq<Stmt>)
    | IfElseStmt(cond: Exp, thenDecls: seq<Decl>, thenStmts: seq<Stmt>, elseDecls: seq<Decl>, elseStmts: seq<Stmt>)
    | WhileStmt(cond: Exp, decls: seq<Decl>, stmts: seq<Stmt>)
    | ReadStmt(exp: Exp)
    | WriteStmt(exp: Exp)
    | CallStmt(call: Call)
    | ReturnStmt(value: Option<Exp>)

  datatype BinOp =
    | Plus | Minus | Times | Divide
    | Equals | NotEquals
    | Greater | GreaterEq | Less | LessEq
    | And | Or

  datatype Exp =
    | TrueLit(line: int, col: int)
    | FalseLit(line: int, col: int)
    | IdExp(id: Id)
    | IntLit(line: int, col: int, value: int)
    | StrLit(line: int, col: int, text: string)
    | AccessExp(access: Access)
    | AssignExp(assign: Assign)
    | CallExp(call: Call)
    | UnaryMinus(operand: Exp)
    | Not(operand: Exp)
    | Binary(op: BinOp, left: Exp, right: Exp)

  /**
   * TupleAccessNode `loc:field`. The parser only builds a location that is an
   * identifier or another colon-access, so `Loc` admits only those two.
   */
  datatype Access = Access(uid: nat, loc: Loc, field: Id)
  datatype Loc = LocId(id: Id) | LocAccess(inner: Access)

  datatype Assign = Assign(lhs: Exp, rhs: Exp)
  datatype Call = Call(callee: Id, args: seq<Exp>)

  predicate IsArith(op: BinOp) { op == Plus || op == Minus || op == Times || op == Divide }
  predicate IsEquality(op: BinOp) { op == Equals || op == NotEquals }
  predicate IsRelational(op: BinOp) { op == Greater || op == GreaterEq || op == Less || op == LessEq }
  predicate IsLogical(op: BinOp) { op == And || op == Or }
}
