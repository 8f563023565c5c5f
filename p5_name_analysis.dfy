/**
 * The `nameAnalysis` methods of p5/ast.java as an imperative analyser. The
 * fields of `Resolver` are the links name analysis writes into the tree
 * (keyed by node uid) and the arena of symbols; the scope stack is a
 * `SymTable` object that the methods update in place. Each method is proved to
 * compute the corresponding function of `P5NameSpec`.
 */
module P5NameAnalysis {
  import opened Wrappers
  import opened ErrMsg
  import opened Ast
  import opened SymTables
  import opened P5Symbols
  import S = P5NameSpec

  class Resolver {
    /** The symbol arena, the links written into the tree and the diagnostics so far. */
    var st: State

    constructor ()
      ensures st == Initial
    {
      st := Initial;
    }

    /** `ErrMsg.fatal`. */
    method Fatal(line: int, col: int, msg: string)
      modifies this
      ensures st == Report(old(st), line, col, msg)
    {
      st := st.(diags := st.diags + [Diag(line, col, msg)]);
    }

    // ------------------------------------------------------------ uses

    method UseId(id: Id, symTab: SymTable<nat>)
      requires S.Ready(symTab.scopes, st)
      modifies this
      ensures st == S.UseId(id, symTab.scopes, old(st))
      ensures S.Ready(symTab.scopes, st)
    {
      var found := symTab.LookupGlobal(id.name);
      if found.sym.None? {
        Fatal(id.line, id.col, Undeclared);
      } else {
        st := st.(idLinks := st.idLinks[id.uid := found.sym.value]);
      }
    }

    method ResolveExp(e: Exp, symTab: SymTable<nat>)
      requires S.Ready(symTab.scopes, st)
      modifies this
      ensures st == S.ResolveExp(e, symTab.scopes, old(st))
      ensures S.Ready(symTab.scopes, st)
      decreases e, 1
    {
      match e
      case IdExp(id) => UseId(id, symTab);
      case AccessExp(a) => ResolveAccess(a, symTab);
      case AssignExp(a) => ResolveOperands(e, a.lhs, a.rhs, symTab);
      case CallExp(c) => ResolveCall(c, symTab);
      case UnaryMinus(_) | Not(_) => ResolveExp(e.operand, symTab);
      case Binary(_, l, r) => ResolveOperands(e, l, r, symTab);
      case _ =>
    }

    /** The two operands of an assignment or a binary operator, left first. */
    method ResolveOperands(ghost e: Exp, l: Exp, r: Exp, symTab: SymTable<nat>)
      requires (e.AssignExp? && l == e.assign.lhs && r == e.assign.rhs) || (e.Binary? && l == e.left && r == e.right)
      requires S.Ready(symTab.scopes, st)
      modifies this
      ensures st == S.ResolveExp(r, symTab.scopes, S.ResolveExp(l, symTab.scopes, old(st)))
      ensures S.Ready(symTab.scopes, st)
      decreases e, 0
    {
      ResolveExp(l, symTab);
      ResolveExp(r, symTab);
    }

    /** `ExpListNode.nameAnalysis`. */
    method ResolveExps(es: seq<Exp>, symTab: SymTable<nat>)
      requires S.Ready(symTab.scopes, st)
      modifies this
      ensures st == S.ResolveExps(es, symTab.scopes, old(st))
    {
      var i := 0;
      while i < |es|
        invariant 0 <= i <= |es|
        invariant S.Ready(symTab.scopes, st)
        invariant S.ResolveExps(es, symTab.scopes, old(st)) == S.ResolveExps(es[i..], symTab.scopes, st)
      {
        assert es[i..][1..] == es[i + 1..];
        ResolveExp(es[i], symTab);
        i := i + 1;
      }
    }

    method ResolveCall(c: Call, symTab: SymTable<nat>)
      requires S.Ready(symTab.scopes, st)
      modifies this
      ensures st == S.ResolveCall(c, symTab.scopes, old(st))
      ensures S.Ready(symTab.scopes, st)
    {
      UseId(c.callee, symTab);
      ResolveExps(c.args, symTab);
    }

    method ResolveLoc(loc: Loc, symTab: SymTable<nat>)
      requires S.Ready(symTab.scopes, st)
      modifies this
      ensures st == S.ResolveLoc(loc, symTab.scopes, old(st))
    {
      match loc
      case LocId(id) => UseId(id, symTab);
      case LocAccess(inner) => ResolveAccess(inner, symTab);
    }

    /** `TupleAccessNode.nameAnalysis`. */
    method ResolveAccess(a: Access, symTab: SymTable<nat>)
      requires S.Ready(symTab.scopes, st)
      modifies this
      ensures st == S.ResolveAccess(a, symTab.scopes, old(st))
      ensures S.Ready(symTab.scopes, st)
    {
      st := st.(badAccess := st.badAccess - {a.uid});
      ResolveLoc(a.loc, symTab);
      var table := LocTable(a.loc);
      LookupField(a, table);
    }

    /** The field table of the tuple the analysed location denotes, or `None` for a bad access. */
    method LocTable(loc: Loc) returns (table: Option<Scopes>)
      requires Wf(st)
      modifies this
      ensures (table, st) == S.LocTable(loc, old(st))
    {
      table := None;
      match loc {
        case LocId(id) =>
          if id.uid in st.idLinks {
            var sym := st.syms[st.idLinks[id.uid]];
            if sym.TupleSym? {
              table := Some(st.syms[sym.def].fields);
            } else {
              Fatal(id.line, id.col, NonTupleAccess);
            }
          }
        case LocAccess(inner) =>
          if inner.uid !in st.badAccess {
            if inner.uid in st.accessLinks {
              table := Some(st.syms[st.accessLinks[inner.uid]].fields);
            } else {
              Fatal(inner.field.line, inner.field.col, NonTupleAccess);
            }
          }
      }
    }

    /**
     * Looks the field up in the tuple's field table. That table is kept by
     * value in its `TupleDefSym`; the lookup is `Lookup`, what
     * `SymTable.LookupGlobal` computes.
     */
    method LookupField(a: Access, table: Option<Scopes>)
      requires Wf(st) && (table.Some? ==> RefsBelow(table.value, |st.syms|))
      modifies this
      ensures st == S.LookupField(a, table, old(st))
    {
      if table.None? {
        st := st.(badAccess := st.badAccess + {a.uid});
      } else {
        match Lookup(table.value, a.field.name) {
          case None =>
            Fatal(a.field.line, a.field.col, BadFieldName);
            st := st.(badAccess := st.badAccess + {a.uid});
          case Some(ref) =>
            LookupIsInnermost(table.value, a.field.name);
            st := st.(idLinks := st.idLinks[a.field.uid := ref]);
            if st.syms[ref].TupleSym? {
              st := st.(accessLinks := st.accessLinks[a.uid := st.syms[ref].def]);
            }
        }
      }
    }

    // ------------------------------------------------------------ declarations

    /** `new …Sym(…)`, `addDecl` and `link`, for a name known to be absent locally. */
    method Insert(id: Id, rec: SymRec, symTab: SymTable<nat>)
      requires S.Ready(symTab.scopes, st) && SymWf(rec, st.syms) && id.name !in symTab.scopes[0]
      modifies this, symTab
      ensures (symTab.scopes, st) == S.Declare(id, rec, old(symTab.scopes), old(st))
    {
      var ref := |st.syms|;
      st := st.(syms := st.syms + [rec]);
      var added := symTab.AddDecl(Some(id.name), Some(ref));
      st := st.(idLinks := st.idLinks[id.uid := ref]);
    }

    /** `VarDeclNode.nameAnalysis(symTab, globalTab)`; the two tables may be the same object. */
    method VarDecl(d: Decl, symTab: SymTable<nat>, globalTab: SymTable<nat>)
      requires d.VarDecl? && S.Ready(symTab.scopes, st) && S.Ready(globalTab.scopes, st)
      modifies this, symTab
      ensures (symTab.scopes, st) ==
        S.VarDeclSpec(d, old(symTab.scopes), old(globalTab.scopes), old(st))
    {
      var bad := false;
      var def: nat := 0;
      if d.typ.VoidNode? {
        Fatal(d.id.line, d.id.col, NonFctnVoid);
        bad := true;
      } else if d.typ.TupleNode? {
        var t := d.typ.tupleId;
        var found := globalTab.LookupGlobal(t.name);
        LookupIsInnermost(globalTab.scopes, t.name);
        if found.sym.None? || !st.syms[found.sym.value].TupleDefSym? {
          Fatal(t.line, t.col, BadTupleTypeName);
          bad := true;
        } else {
          def := found.sym.value;
          st := st.(idLinks := st.idLinks[t.uid := def]);
        }
      }
      var local := symTab.LookupLocal(d.id.name);
      if local.sym.Some? {
        Fatal(d.id.line, d.id.col, MultiplyDeclared);
        bad := true;
      }
      if !bad {
        if d.typ.TupleNode? {
          Insert(d.id, TupleSym(d.typ.tupleId.name, def), symTab);
        } else {
          Insert(d.id, Plain(S.TypeOf(d.typ)), symTab);
        }
      }
    }

    /** `FormalDeclNode.nameAnalysis`: returns the new symbol, or `None` for Java's null. */
    method Formal(f: Formal, symTab: SymTable<nat>) returns (sym: Option<nat>)
      requires S.Ready(symTab.scopes, st)
      modifies this, symTab
      ensures (sym, symTab.scopes, st) == S.FormalSpec(f, old(symTab.scopes), old(st))
    {
      var bad := false;
      if f.typ.VoidNode? {
        Fatal(f.id.line, f.id.col, NonFctnVoid);
        bad := true;
      }
      var local := symTab.LookupLocal(f.id.name);
      if local.sym.Some? {
        Fatal(f.id.line, f.id.col, MultiplyDeclared);
        bad := true;
      }
      sym := None;
      if !bad {
        sym := Some(|st.syms|);
        Insert(f.id, Plain(S.TypeOf(f.typ)), symTab);
      }
    }

    /** `FormalsListNode.nameAnalysis`: the types of the formals declared, in order. */
    method Formals(fs: seq<Formal>, symTab: SymTable<nat>) returns (typeList: seq<Type>)
      requires S.Ready(symTab.scopes, st)
      modifies this, symTab
      ensures (typeList, symTab.scopes, st) == S.FormalsSpec(fs, old(symTab.scopes), old(st))
    {
      typeList := [];
      var i := 0;
      while i < |fs|
        invariant 0 <= i <= |fs|
        invariant S.Ready(symTab.scopes, st)
        invariant S.FormalsFrom(fs, i, typeList, symTab.scopes, st) ==
          S.FormalsSpec(fs, old(symTab.scopes), old(st))
      {
        typeList := FormalsTurn(fs, i, typeList, symTab);
        i := i + 1;
      }
    }

    /** One turn of the loop over the formals: analyse one, and add its type when it was declared. */
    method FormalsTurn(fs: seq<Formal>, i: nat, typeList: seq<Type>, symTab: SymTable<nat>) returns (typeList': seq<Type>)
      requires i < |fs| && S.Ready(symTab.scopes, st)
      modifies this, symTab
      ensures S.Ready(symTab.scopes, st)
      ensures S.FormalsFrom(fs, i + 1, typeList', symTab.scopes, st) == S.FormalsFrom(fs, i, typeList, old(symTab.scopes), old(st))
    {
      S.FormalsFromStep(fs, i, typeList, symTab.scopes, st);
      var sym := Formal(fs[i], symTab);
      typeList' := typeList;
      if sym.Some? {
        typeList' := typeList + [SymType(st.syms[sym.value])];
      }
      assert typeList' == typeList + (if sym.Some? then [S.TypeOf(fs[i].typ)] else []);
    }

    /** `DeclListNode.nameAnalysis(symTab, globalTab)`. */
    method DeclList(ds: seq<Decl>, symTab: SymTable<nat>, globalTab: SymTable<nat>)
      requires S.Ready(symTab.scopes, st) && S.Ready(globalTab.scopes, st)
      modifies this, symTab
      ensures (symTab.scopes, st) ==
        S.DeclsSpec(ds, old(symTab.scopes), if globalTab == symTab then None else Some(old(globalTab.scopes)), old(st))
      decreases ds, 3
    {
      ghost var outer := if globalTab == symTab then None else Some(globalTab.scopes);
      var i := 0;
      while i < |ds|
        invariant 0 <= i <= |ds|
        invariant S.Ready(symTab.scopes, st) && S.Ready(globalTab.scopes, st)
        invariant outer.Some? ==> globalTab.scopes == outer.value
        invariant S.DeclsSpec(ds, old(symTab.scopes), outer, old(st)) ==
          S.DeclsSpec(ds[i..], symTab.scopes, outer, st)
      {
        DeclAt(ds, i, symTab, globalTab, outer);
        i := i + 1;
      }
    }

    /** One turn of the loop over a declaration list. */
    method DeclAt(ds: seq<Decl>, i: nat, symTab: SymTable<nat>, globalTab: SymTable<nat>, ghost outer: Option<Scopes>)
      requires i < |ds| && S.Ready(symTab.scopes, st) && S.Ready(globalTab.scopes, st)
      requires outer == if globalTab == symTab then None else Some(globalTab.scopes)
      modifies this, symTab
      ensures S.Ready(symTab.scopes, st) && S.Ready(globalTab.scopes, st)
      ensures outer.Some? ==> globalTab.scopes == outer.value
      ensures S.DeclsSpec(ds[i..], old(symTab.scopes), outer, old(st)) == S.DeclsSpec(ds[i + 1..], symTab.scopes, outer, st)
      decreases ds, 2
    {
      S.DeclsStep(ds, i, symTab.scopes, outer, st);
      Decl(ds[i], symTab, globalTab);
    }

    /** One declaration of a list: a variable declaration is given both tables, the others only the local one. */
    method Decl(d: Decl, symTab: SymTable<nat>, globalTab: SymTable<nat>)
      requires S.Ready(symTab.scopes, st) && S.Ready(globalTab.scopes, st)
      modifies this, symTab
      ensures (symTab.scopes, st) ==
        S.DeclSpec(d, old(symTab.scopes), if globalTab == symTab then None else Some(old(globalTab.scopes)), old(st))
      decreases d, 2
    {
      match d {
        case VarDecl(_, _, _) => VarDecl(d, symTab, globalTab);
        case FctnDecl(_, _, _, _) => FctnDecl(d, symTab);
        case TupleDecl(_, _) => TupleDecl(d, symTab);
      }
    }

    /** `FctnDeclNode.nameAnalysis`. */
    method FctnDecl(d: Decl, symTab: SymTable<nat>)
      requires d.FctnDecl? && S.Ready(symTab.scopes, st)
      modifies this, symTab
      ensures (symTab.scopes, st) == S.FctnDeclSpec(d, old(symTab.scopes), old(st))
      decreases d, 1
    {
      var ref := |st.syms|;
      var dup := FctnName(d, symTab);
      symTab.AddScope();
      var typeList := Formals(d.formals, symTab);
      if !dup {
        st := S.AddFormals(st, ref, typeList);
      }
      Body(d.body, symTab);
      var popped := symTab.RemoveScope();
    }

    /** Declares the function's name; returns whether it was a local duplicate. */
    method FctnName(d: Decl, symTab: SymTable<nat>) returns (dup: bool)
      requires d.FctnDecl? && S.Ready(symTab.scopes, st)
      modifies this, symTab
      ensures dup == (d.id.name in old(symTab.scopes)[0])
      ensures (symTab.scopes, st) == S.FctnNameSpec(d, old(symTab.scopes), old(st))
    {
      var ref := |st.syms|;
      var local := symTab.LookupLocal(d.id.name);
      dup := local.sym.Some?;
      if dup {
        Fatal(d.id.line, d.id.col, MultiplyDeclared);
      } else {
        Insert(d.id, FctnSym(S.TypeOf(d.ret), |d.formals|, []), symTab);
        st := st.(fctnLinks := st.fctnLinks[d.id.uid := ref]);
      }
    }

    /** `FctnBodyNode.nameAnalysis`. */
    method Body(b: Body, symTab: SymTable<nat>)
      requires S.Ready(symTab.scopes, st)
      modifies this, symTab
      ensures (symTab.scopes, st) == S.BodySpec(b, old(symTab.scopes), old(st))
      decreases b, 0
    {
      DeclList(b.decls, symTab, symTab);
      StmtList(b.stmts, symTab);
    }

    /** `TupleDeclNode.nameAnalysis`. */
    method TupleDecl(d: Decl, symTab: SymTable<nat>)
      requires d.TupleDecl? && S.Ready(symTab.scopes, st)
      modifies this, symTab
      ensures (symTab.scopes, st) == S.TupleDeclSpec(d, old(symTab.scopes), old(st))
      decreases d, 1
    {
      var local := symTab.LookupLocal(d.id.name);
      var dup := local.sym.Some?;
      if dup {
        Fatal(d.id.line, d.id.col, MultiplyDeclared);
      }
      var tupleSymTab := new SymTable<nat>();
      DeclList(d.fields, tupleSymTab, symTab);
      if !dup {
        Insert(d.id, TupleDefSym(tupleSymTab.scopes), symTab);
      }
    }

    // ------------------------------------------------------------ statements

    /** `StmtListNode.nameAnalysis`. */
    method StmtList(ss: seq<Stmt>, symTab: SymTable<nat>)
      requires S.Ready(symTab.scopes, st)
      modifies this, symTab
      ensures symTab.scopes == old(symTab.scopes)
      ensures st == S.StmtsSpec(ss, old(symTab.scopes), old(st))
      decreases ss, 3
    {
      var i := 0;
      while i < |ss|
        invariant 0 <= i <= |ss|
        invariant symTab.scopes == old(symTab.scopes)
        invariant S.Ready(symTab.scopes, st)
        invariant S.StmtsSpec(ss, old(symTab.scopes), old(st)) == S.StmtsSpec(ss[i..], symTab.scopes, st)
      {
        assert ss[i..][1..] == ss[i + 1..];
        Stmt(ss[i], symTab);
        i := i + 1;
      }
    }

    /** `nameAnalysis` of each statement node. */
    method Stmt(stmt: Stmt, symTab: SymTable<nat>)
      requires S.Ready(symTab.scopes, st)
      modifies this, symTab
      ensures symTab.scopes == old(symTab.scopes)
      ensures st == S.StmtSpec(stmt, old(symTab.scopes), old(st))
      decreases stmt, 3
    {
      match stmt
      case AssignStmt(a) => ResolveExp(AssignExp(a), symTab);
      case PostIncStmt(e) => ResolveExp(e, symTab);
      case PostDecStmt(e) => ResolveExp(e, symTab);
      case IfStmt(_, _, _) => Guarded(stmt, symTab);
      case IfElseStmt(_, _, _, _, _) => IfElse(stmt, symTab);
      case WhileStmt(_, _, _) => Guarded(stmt, symTab);
      case ReadStmt(e) => ResolveExp(e, symTab);
      case WriteStmt(e) => ResolveExp(e, symTab);
      case CallStmt(c) => ResolveCall(c, symTab);
      case ReturnStmt(v) =>
        if v.Some? {
          ResolveExp(v.value, symTab);
        }
    }

    /** `IfStmtNode.nameAnalysis` and `WhileStmtNode.nameAnalysis`: the guard, then the block. */
    method Guarded(stmt: Stmt, symTab: SymTable<nat>)
      requires (stmt.IfStmt? || stmt.WhileStmt?) && S.Ready(symTab.scopes, st)
      modifies this, symTab
      ensures symTab.scopes == old(symTab.scopes)
      ensures st == S.StmtSpec(stmt, old(symTab.scopes), old(st))
      decreases stmt, 2
    {
      ResolveExp(stmt.cond, symTab);
      Block(stmt, stmt.decls, stmt.stmts, symTab);
    }

    /** `IfElseStmtNode.nameAnalysis`: the guard, then each arm in a scope of its own. */
    method IfElse(stmt: Stmt, symTab: SymTable<nat>)
      requires stmt.IfElseStmt? && S.Ready(symTab.scopes, st)
      modifies this, symTab
      ensures symTab.scopes == old(symTab.scopes)
      ensures st == S.StmtSpec(stmt, old(symTab.scopes), old(st))
      decreases stmt, 2
    {
      ResolveExp(stmt.cond, symTab);
      Block(stmt, stmt.thenDecls, stmt.thenStmts, symTab);
      Block(stmt, stmt.elseDecls, stmt.elseStmts, symTab);
    }

    /**
     * The block of an `if`, `if`/`else` or `while`: a scope is pushed, the
     * block's declarations and statements are analysed in it, and it is popped.
     */
    method Block(ghost stmt: Stmt, ds: seq<Decl>, ss: seq<Stmt>, symTab: SymTable<nat>)
      requires ((stmt.IfStmt? || stmt.WhileStmt?) && ds == stmt.decls && ss == stmt.stmts)
        || (stmt.IfElseStmt? && ((ds == stmt.thenDecls && ss == stmt.thenStmts) || (ds == stmt.elseDecls && ss == stmt.elseStmts)))
      requires S.Ready(symTab.scopes, st)
      modifies this, symTab
      ensures symTab.scopes == old(symTab.scopes)
      ensures S.Ready(symTab.scopes, st)
      ensures var (sc, s1) := S.DeclsSpec(ds, [map[]] + old(symTab.scopes), None, old(st));
        st == S.StmtsSpec(ss, sc, s1)
      decreases stmt, 1
    {
      symTab.AddScope();
      DeclList(ds, symTab, symTab);
      StmtList(ss, symTab);
      var popped := symTab.RemoveScope();
    }

    /** `ProgramNode.nameAnalysis`: a new table, then the global declarations. */
    method Program(p: Program)
      requires Wf(st)
      modifies this
      ensures st == S.ProgramSpec(p, old(st)).1
    {
      var symTab := new SymTable<nat>();
      DeclList(p.decls, symTab, symTab);
    }
  }
}
