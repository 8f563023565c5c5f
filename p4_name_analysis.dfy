/**
 * The `nameAnalysis` methods of p4/ast.java as an imperative analyser: the
 * scope stack is a `SymTable` object updated in place, the symbols recorded in
 * identifiers and the diagnostics are the analyser's state, and an exception
 * that escapes a method is its returned fault, after which every caller stops.
 * Each method is proved to compute the corresponding function of `P4NameSpec`.
 */
module P4NameAnalysis {
  import opened Wrappers
  import opened ErrMsg
  import opened Ast
  import opened SymTables
  import opened P4Sym
  import S = P4NameSpec

  class Analyzer {
    /** `IdNode.mySymbol` of each declared identifier and the diagnostics so far. */
    var st: S.State

    constructor ()
      ensures st == S.State(map[], [])
    {
      st := S.State(map[], []);
    }

    /** `ErrMsg.fatal`. */
    method Fatal(line: int, col: int, msg: string)
      modifies this
      ensures st == old(st).(diags := old(st).diags + [Diag(line, col, msg)])
    {
      st := st.(diags := st.diags + [Diag(line, col, msg)]);
    }

    /** `IdNode.nameAnalysis(T, sym, declType)`. */
    method Declare(id: Id, sym: Sym, declType: string, symTab: SymTable<Sym>)
      modifies this, symTab
      ensures (symTab.scopes, st) == S.Declare(id, sym, declType, old(symTab.scopes), old(st))
    {
      st := st.(mySymbol := st.mySymbol[id.uid := sym]);
      var badVar := declType != "function" && GetType(sym) == "void";
      var multVar := false;
      var local := symTab.LookupLocal(id.name);
      match local {
        case Raised(_) => multVar := true;
        case Returned(found) =>
          if found.None? {
            var added := symTab.AddDecl(Some(id.name), Some(sym));
            if added != Done {
              multVar := true;
            }
          } else {
            multVar := true;
          }
      }
      if badVar {
        Fatal(id.line, id.col, NonFctnVoid);
      }
      if multVar {
        Fatal(id.line, id.col, MultiplyDeclared);
      }
      assert st.diags == S.Declare(id, sym, declType, old(symTab.scopes), old(st)).1.diags;
    }

    /** `IdNode.nameAnalysis(T)`: the local lookup, then the global one. */
    method Use(id: Id, symTab: SymTable<Sym>)
      modifies this
      ensures st == S.Use(id, symTab.scopes, old(st))
    {
      var unDecl := false;
      var local := symTab.LookupLocal(id.name);
      if local.Returned? && local.sym.None? {
        var global := symTab.LookupGlobal(id.name);
        if global.Returned? && global.sym.None? {
          unDecl := true;
        }
      }
      if unDecl {
        Fatal(id.line, id.col, Undeclared);
      }
    }

    /** `nameAnalysis` of every expression node. */
    method Exp(e: Exp, symTab: SymTable<Sym>) returns (fault: Option<S.Fault>)
      modifies this
      ensures (st, fault) == S.ExpSpec(e, symTab.scopes, old(st))
    {
      fault := None;
      match e
      case IdExp(id) => Use(id, symTab);
      case AccessExp(_) => fault := Some(S.Unsupported);
      case CallExp(_) => fault := Some(S.Unsupported);
      case AssignExp(a) => Assign(a, symTab);
      case UnaryMinus(x) => fault := Exp(x, symTab);
      case Not(x) => fault := Exp(x, symTab);
      case Binary(_, l, r) =>
        fault := Exp(l, symTab);
        if fault.None? {
          fault := Exp(r, symTab);
        }
      case _ =>
    }

    /** `AssignExpNode.nameAnalysis`. */
    method Assign(a: Assign, symTab: SymTable<Sym>)
      modifies this
      ensures st == S.AssignSpec(a, symTab.scopes, old(st))
    {
      if a.lhs.IdExp? {
        Use(a.lhs.id, symTab);
      }
    }

    // ------------------------------------------------------------ declarations

    /** `DeclListNode.nameAnalysis`. */
    method DeclList(ds: seq<Decl>, symTab: SymTable<Sym>) returns (fault: Option<S.Fault>)
      modifies this, symTab
      decreases ds, 3
      ensures S.Res(symTab.scopes, st, fault) == S.DeclsSpec(ds, old(symTab.scopes), old(st))
    {
      fault := None;
      var i := 0;
      while i < |ds|
        invariant 0 <= i <= |ds|
        invariant fault.None?
        invariant S.DeclsSpec(ds, old(symTab.scopes), old(st)) == S.DeclsSpec(ds[i..], symTab.scopes, st)
      {
        assert ds[i..][1..] == ds[i + 1..];
        fault := Decl(ds[i], symTab);
        if fault.Some? {
          return;
        }
        i := i + 1;
      }
      assert ds[i..] == [];
    }

    method Decl(d: Decl, symTab: SymTable<Sym>) returns (fault: Option<S.Fault>)
      modifies this, symTab
      decreases d, 2
      ensures S.Res(symTab.scopes, st, fault) == S.DeclSpec(d, old(symTab.scopes), old(st))
    {
      match d
      case VarDecl(t, id, _) =>
        Declare(id, NewSym(S.TypeName(t)), "var", symTab);
        fault := None;
      case FctnDecl(_, _, _, _) => fault := FctnDecl(d, symTab);
      case TupleDecl(_, _) => fault := TupleDecl(d, symTab);
    }

    /** `FctnDeclNode.nameAnalysis`. */
    method FctnDecl(d: Decl, symTab: SymTable<Sym>) returns (fault: Option<S.Fault>)
      requires d.FctnDecl?
      modifies this, symTab
      decreases d, 1
      ensures S.Res(symTab.scopes, st, fault) == S.FctnDeclSpec(d, old(symTab.scopes), old(st))
    {
      symTab.AddScope();
      Declare(d.id, NewSym(S.TypeName(d.ret)), "function", symTab);
      Formals(d.formals, symTab);
      fault := Body(d.body, symTab);
      if fault.Some? {
        return;
      }
      var popped := symTab.RemoveScope();
    }

    /** `FormalsListNode.nameAnalysis`. */
    method Formals(fs: seq<Formal>, symTab: SymTable<Sym>)
      modifies this, symTab
      ensures (symTab.scopes, st) == S.FormalsSpec(fs, old(symTab.scopes), old(st))
    {
      var i := 0;
      while i < |fs|
        invariant 0 <= i <= |fs|
        invariant S.FormalsSpec(fs, old(symTab.scopes), old(st)) == S.FormalsSpec(fs[i..], symTab.scopes, st)
      {
        assert fs[i..][1..] == fs[i + 1..];
        Declare(fs[i].id, NewSym(S.TypeName(fs[i].typ)), "formals", symTab);
        i := i + 1;
      }
    }

    /** `FctnBodyNode.nameAnalysis`. */
    method Body(b: Body, symTab: SymTable<Sym>) returns (fault: Option<S.Fault>)
      modifies this, symTab
      decreases b, 0
      ensures S.Res(symTab.scopes, st, fault) == S.BodySpec(b, old(symTab.scopes), old(st))
    {
      fault := DeclList(b.decls, symTab);
      if fault.Some? {
        return;
      }
      fault := StmtList(b.stmts, symTab);
    }

    /** `TupleDeclNode.nameAnalysis`. */
    method TupleDecl(d: Decl, symTab: SymTable<Sym>) returns (fault: Option<S.Fault>)
      requires d.TupleDecl?
      modifies this, symTab
      decreases d, 1
      ensures S.Res(symTab.scopes, st, fault) == S.TupleDeclSpec(d, old(symTab.scopes), old(st))
    {
      Declare(d.id, NewSym("tuple"), "tuple", symTab);
      symTab.AddScope();
      fault := DeclList(d.fields, symTab);
    }

    // ------------------------------------------------------------ statements

    /** `StmtListNode.nameAnalysis`. */
    method StmtList(ss: seq<Stmt>, symTab: SymTable<Sym>) returns (fault: Option<S.Fault>)
      modifies this, symTab
      decreases ss, 3
      ensures S.Res(symTab.scopes, st, fault) == S.StmtsSpec(ss, old(symTab.scopes), old(st))
    {
      fault := None;
      var i := 0;
      while i < |ss|
        invariant 0 <= i <= |ss|
        invariant fault.None?
        invariant S.StmtsSpec(ss, old(symTab.scopes), old(st)) == S.StmtsSpec(ss[i..], symTab.scopes, st)
      {
        assert ss[i..][1..] == ss[i + 1..];
        fault := Stmt(ss[i], symTab);
        if fault.Some? {
          return;
        }
        i := i + 1;
      }
      assert ss[i..] == [];
    }

    /** One arm of `if`, `while` or `if`/`else`. */
    method Arm(s: Stmt, elseArm: bool, symTab: SymTable<Sym>) returns (fault: Option<S.Fault>)
      requires S.Opens(s)
      modifies this, symTab
      decreases s, 2
      ensures S.Res(symTab.scopes, st, fault) == S.ArmSpec(s, elseArm, old(symTab.scopes), old(st))
    {
      symTab.AddScope();
      fault := None;
      if !elseArm {
        fault := Exp(s.cond, symTab);
        if fault.Some? {
          return;
        }
      }
      fault := ArmBody(s, elseArm, symTab);
      if fault.Some? {
        return;
      }
      var popped := symTab.RemoveScope();
    }

    method ArmBody(s: Stmt, elseArm: bool, symTab: SymTable<Sym>) returns (fault: Option<S.Fault>)
      requires S.Opens(s)
      modifies this, symTab
      decreases s, 1
      ensures S.Res(symTab.scopes, st, fault) == S.ArmBody(s, elseArm, old(symTab.scopes), old(st))
    {
      fault := DeclList(S.ArmDecls(s, elseArm), symTab);
      if fault.Some? {
        return;
      }
      fault := StmtList(S.ArmStmts(s, elseArm), symTab);
    }

    /** `nameAnalysis` of each kind of statement. */
    method Stmt(s: Stmt, symTab: SymTable<Sym>) returns (fault: Option<S.Fault>)
      modifies this, symTab
      decreases s, 3
      ensures S.Res(symTab.scopes, st, fault) == S.StmtSpec(s, old(symTab.scopes), old(st))
    {
      fault := None;
      match s
      case AssignStmt(a) => Assign(a, symTab);
      case PostIncStmt(e) => fault := Exp(e, symTab);
      case PostDecStmt(e) => fault := Exp(e, symTab);
      case IfStmt(_, _, _) => fault := Arm(s, false, symTab);
      case IfElseStmt(_, _, _, _, _) =>
        fault := Arm(s, false, symTab);
        if fault.None? {
          fault := Arm(s, true, symTab);
        }
      case WhileStmt(_, _, _) => fault := Arm(s, false, symTab);
      case ReadStmt(e) => fault := Exp(e, symTab);
      case WriteStmt(e) => fault := Exp(e, symTab);
      case CallStmt(_) => fault := Some(S.Unsupported);
      case ReturnStmt(v) =>
        if v.Some? {
          fault := Exp(v.value, symTab);
        } else {
          fault := Some(S.NullPointer);
        }
    }

    /** `ProgramNode.nameAnalysis(T)`. */
    method Program(p: Program, symTab: SymTable<Sym>) returns (fault: Option<S.Fault>)
      modifies this, symTab
      ensures S.Res(symTab.scopes, st, fault) == S.ProgramSpec(p, old(symTab.scopes), old(st))
    {
      fault := DeclList(p.decls, symTab);
    }
  }
}
