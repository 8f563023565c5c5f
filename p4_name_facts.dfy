/**
 * Properties of the fourth exercise's name analysis, stated about the
 * functions of `P4NameSpec`: how deep the scope stack ends up, where
 * declarations land, and the behaviours that set this pass apart.
 */
module P4NameFacts {
  import opened Wrappers
  import opened ErrMsg
  import opened Ast
  import opened SymTables
  import opened P4Sym
  import opened P4NameSpec

  /**
   * After declarations that did not throw: the stack has grown by `k` scopes
   * and everything below the innermost scope it started with is untouched.
   */
  predicate DeclsLeave(r: Res, scopes: Scopes, k: nat)
  {
    r.fault.None? ==> |r.scopes| == |scopes| + k && (scopes != [] ==> r.scopes[k + 1..] == scopes[1..])
  }

  /** After statements that did not throw: `k` scopes sit on top of the whole stack they started with. */
  predicate StmtsLeave(r: Res, scopes: Scopes, k: nat)
  {
    r.fault.None? ==> |r.scopes| == |scopes| + k && r.scopes[k..] == scopes
  }

  lemma {:induction false} DeclsDepth(ds: seq<Decl>, scopes: Scopes, st: State)
    decreases ds, 3
    ensures DeclsLeave(DeclsSpec(ds, scopes, st), scopes, DeclsPushes(ds))
  {
    if ds != [] {
      DeclDepth(ds[0], scopes, st);
      var first := DeclSpec(ds[0], scopes, st);
      if first.fault.None? {
        DeclsDepth(ds[1..], first.scopes, first.st);
        var rest := DeclsSpec(ds[1..], first.scopes, first.st);
        if rest.fault.None? && scopes != [] {
          var k0 := DeclPushes(ds[0]);
          assert rest.scopes[DeclsPushes(ds) + 1..] == rest.scopes[DeclsPushes(ds[1..]) + 1..][k0..];
        }
      }
    }
  }

  lemma {:induction false} DeclDepth(d: Decl, scopes: Scopes, st: State)
    decreases d, 2
    ensures DeclsLeave(DeclSpec(d, scopes, st), scopes, DeclPushes(d))
  {
    match d
    case VarDecl(_, _, _) =>
    case FctnDecl(_, _, _, _) =>
      FctnDeclDepth(d, scopes, st);
      var r := DeclSpec(d, scopes, st);
      if r.fault.None? && scopes != [] {
        assert r.scopes[DeclPushes(d) + 1..] == r.scopes[DeclPushes(d)..][1..];
      }
    case TupleDecl(id, fields) =>
      var named := Declare(id, NewSym("tuple"), "tuple", scopes, st);
      DeclsDepth(fields, [map[]] + named.0, named.1);
  }

  /**
   * A function declaration that did not throw leaves the scopes its body's
   * tuples opened on top of the whole stack it started with.
   */
  lemma {:induction false} FctnDeclDepth(d: Decl, scopes: Scopes, st: State)
    requires d.FctnDecl?
    decreases d, 1
    ensures StmtsLeave(FctnDeclSpec(d, scopes, st), scopes, BodyPushes(d.body))
  {
    var named := Declare(d.id, NewSym(TypeName(d.ret)), "function", [map[]] + scopes, st);
    var withFormals := FormalsSpec(d.formals, named.0, named.1);
    BodyDepth(d.body, withFormals.0, withFormals.1);
    var body := BodySpec(d.body, withFormals.0, withFormals.1);
    if body.fault.None? {
      assert Pop(body.scopes)[BodyPushes(d.body)..] == body.scopes[BodyPushes(d.body) + 1..];
    }
  }

  lemma {:induction false} BodyDepth(b: Body, scopes: Scopes, st: State)
    decreases b, 0
    ensures DeclsLeave(BodySpec(b, scopes, st), scopes, BodyPushes(b))
  {
    DeclsDepth(b.decls, scopes, st);
    var decls := DeclsSpec(b.decls, scopes, st);
    if decls.fault.None? {
      StmtsDepth(b.stmts, decls.scopes, decls.st);
      var stmts := StmtsSpec(b.stmts, decls.scopes, decls.st);
      if stmts.fault.None? && scopes != [] {
        assert stmts.scopes[BodyPushes(b) + 1..] == stmts.scopes[StmtsPushes(b.stmts)..][DeclsPushes(b.decls) + 1..];
      }
    }
  }

  lemma {:induction false} StmtsDepth(ss: seq<Stmt>, scopes: Scopes, st: State)
    decreases ss, 3
    ensures StmtsLeave(StmtsSpec(ss, scopes, st), scopes, StmtsPushes(ss))
  {
    if ss != [] {
      StmtDepth(ss[0], scopes, st);
      var first := StmtSpec(ss[0], scopes, st);
      if first.fault.None? {
        StmtsDepth(ss[1..], first.scopes, first.st);
        var rest := StmtsSpec(ss[1..], first.scopes, first.st);
        if rest.fault.None? {
          assert rest.scopes[StmtsPushes(ss)..] == rest.scopes[StmtsPushes(ss[1..])..][StmtPushes(ss[0])..];
        }
      }
    }
  }

  lemma {:induction false} StmtDepth(s: Stmt, scopes: Scopes, st: State)
    decreases s, 3
    ensures StmtsLeave(StmtSpec(s, scopes, st), scopes, StmtPushes(s))
  {
    match s
    case IfStmt(_, _, _) => ArmDepth(s, false, scopes, st);
    case IfElseStmt(_, _, _, _, _) =>
      ArmDepth(s, false, scopes, st);
      var thenPart := ArmSpec(s, false, scopes, st);
      if thenPart.fault.None? {
        ArmDepth(s, true, thenPart.scopes, thenPart.st);
        var elsePart := ArmSpec(s, true, thenPart.scopes, thenPart.st);
        if elsePart.fault.None? {
          assert elsePart.scopes[StmtPushes(s)..] == elsePart.scopes[ArmPushes(s, true)..][ArmPushes(s, false)..];
        }
      }
    case WhileStmt(_, _, _) => ArmDepth(s, false, scopes, st);
    case _ =>
  }

  /** One arm opens a scope and pops one, so what it leaves on top is what its tuples opened. */
  lemma {:induction false} ArmDepth(s: Stmt, elseArm: bool, scopes: Scopes, st: State)
    requires Opens(s)
    decreases s, 2
    ensures StmtsLeave(ArmSpec(s, elseArm, scopes, st), scopes, ArmPushes(s, elseArm))
  {
    var inner := [map[]] + scopes;
    var guard := if elseArm then Res(inner, st, None) else ExpStmt(s.cond, inner, st);
    if guard.fault.None? {
      ArmBodyDepth(s, elseArm, inner, guard.st);
      var body := ArmBody(s, elseArm, inner, guard.st);
      if body.fault.None? {
        assert Pop(body.scopes)[ArmPushes(s, elseArm)..] == body.scopes[ArmPushes(s, elseArm) + 1..];
      }
    }
  }

  lemma {:induction false} ArmBodyDepth(s: Stmt, elseArm: bool, scopes: Scopes, st: State)
    requires Opens(s)
    decreases s, 1
    ensures DeclsLeave(ArmBody(s, elseArm, scopes, st), scopes, ArmPushes(s, elseArm))
  {
    DeclsDepth(ArmDecls(s, elseArm), scopes, st);
    var decls := DeclsSpec(ArmDecls(s, elseArm), scopes, st);
    if decls.fault.None? {
      StmtsDepth(ArmStmts(s, elseArm), decls.scopes, decls.st);
      var stmts := StmtsSpec(ArmStmts(s, elseArm), decls.scopes, decls.st);
      if stmts.fault.None? && scopes != [] {
        assert stmts.scopes[ArmPushes(s, elseArm) + 1..] ==
          stmts.scopes[StmtsPushes(ArmStmts(s, elseArm))..][DeclsPushes(ArmDecls(s, elseArm)) + 1..];
      }
    }
  }

  // ---------------------------------------------------------------- behaviours

  /**
   * Declaring a name binds it in the innermost scope exactly when it is not
   * bound there; an existing binding is kept, and every other name resolves
   * as before.
   */
  lemma DeclareBindsIffAbsent(id: Id, sym: Sym, declType: string, scopes: Scopes, st: State, other: string)
    requires scopes != []
    ensures var r := Declare(id, sym, declType, scopes, st);
      && (id.name !in scopes[0] ==> Lookup(r.0, id.name) == Some(sym))
      && (id.name in scopes[0] ==> r.0 == scopes)
      && (other != id.name ==> Lookup(r.0, other) == Lookup(scopes, other))
  {
    if id.name !in scopes[0] {
      DeclThenLookup(scopes, id.name, sym);
      if other != id.name {
        DeclKeepsOthers(scopes, id.name, sym, other);
      }
    }
  }

  /** A void variable is reported, and bound all the same. */
  lemma VoidVariableStillDeclared(x: Id, size: int, scopes: Scopes, st: State)
    requires scopes != [] && x.name !in scopes[0]
    ensures var r := DeclSpec(VarDecl(VoidNode, x, size), scopes, st);
      && Lookup(r.scopes, x.name) == Some(NewSym("void"))
      && r.st.diags == st.diags + [Diag(x.line, x.col, NonFctnVoid)]
  {
    DeclThenLookup(scopes, x.name, NewSym("void"));
  }

  /**
   * A function whose body opens no tuple scope leaves the table exactly as it
   * found it: its name, declared in the function's own scope, is gone.
   */
  lemma FctnNameDoesNotSurvive(d: Decl, scopes: Scopes, st: State)
    requires d.FctnDecl? && BodyPushes(d.body) == 0
    ensures var r := DeclSpec(d, scopes, st);
      r.fault.None? ==> r.scopes == scopes && Lookup(r.scopes, d.id.name) == Lookup(scopes, d.id.name)
  {
    FctnDeclDepth(d, scopes, st);
  }

  /**
   * A tuple's scope stays open: a variable declared after the tuple is bound
   * in that scope, one above the scope holding the tuple's name.
   */
  lemma TupleScopeStaysOpen(tuple: Id, x: Id, t: TypeNode, size: int, scopes: Scopes, st: State)
    requires scopes != [] && tuple.name !in scopes[0]
    ensures var r := DeclsSpec([TupleDecl(tuple, []), VarDecl(t, x, size)], scopes, st);
      && r.fault.None? && |r.scopes| == |scopes| + 1
      && r.scopes[0] == map[x.name := NewSym(TypeName(t))]
      && r.scopes[1..] == [scopes[0][tuple.name := NewSym("tuple")]] + scopes[1..]
  {
    var ds := [TupleDecl(tuple, []), VarDecl(t, x, size)];
    var named := Declare(tuple, NewSym("tuple"), "tuple", scopes, st);
    assert named.0 == [scopes[0][tuple.name := NewSym("tuple")]] + scopes[1..];
    var first := DeclSpec(ds[0], scopes, st);
    assert first == TupleDeclSpec(TupleDecl(tuple, []), scopes, st) == DeclsSpec([], [map[]] + named.0, named.1);
    var second := DeclSpec(VarDecl(t, x, size), first.scopes, first.st);
    assert second.scopes == [map[x.name := NewSym(TypeName(t))]] + named.0;
    assert ds[1..] == [VarDecl(t, x, size)];
    assert DeclsSpec(ds[1..], first.scopes, first.st) == DeclsSpec([], second.scopes, second.st);
  }

  /**
   * The scope of an `if` is opened before its guard is analysed. On a table
   * with no scope at all a use is not reported (both lookups throw and are
   * caught), yet the same use as the guard of an `if` is reported.
   */
  lemma GuardSeesOpenedScope(x: Id, st: State)
    ensures Use(x, [], st) == st
    ensures StmtSpec(IfStmt(IdExp(x), [], []), [], st) ==
      Res([], st.(diags := st.diags + [Diag(x.line, x.col, Undeclared)]), None)
  {
    var s := IfStmt(IdExp(x), [], []);
    assert Lookup<Sym>([map[]], x.name) == None by {
      assert Lookup<Sym>([map[]][1..], x.name) == None;
    }
    var reported := st.(diags := st.diags + [Diag(x.line, x.col, Undeclared)]);
    assert Use(x, [map[]], st) == reported;
    assert ExpStmt(IdExp(x), [map[]], st) == Res([map[]], reported, None);
    assert ArmBody(s, false, [map[]], reported) == Res([map[]], reported, None);
    var empty: Scopes := [];
    assert [map[]] + empty == [map[]];
    assert Pop([map[]]) == empty;
    assert ArmSpec(s, false, empty, st) == Res(empty, reported, None);
  }

  /**
   * The two arms of an `if`/`else` get scopes of their own: a name declared
   * in the `then` arm and bound nowhere else is undeclared in the `else` arm.
   */
  lemma ElseArmDoesNotSeeThenArm(x: Id, use: Id, scopes: Scopes, st: State)
    requires use.name == x.name
    requires forall j :: 0 <= j < |scopes| ==> x.name !in scopes[j]
    ensures var r := StmtSpec(IfElseStmt(TrueLit(0, 0), [VarDecl(IntegerNode, x, 0)], [], [], [ReadStmt(IdExp(use))]), scopes, st);
      r.fault.None? && Diag(use.line, use.col, Undeclared) in r.st.diags
  {
    var decl := VarDecl(IntegerNode, x, 0);
    var read := ReadStmt(IdExp(use));
    var s := IfElseStmt(TrueLit(0, 0), [decl], [], [], [read]);
    var inner := [map[]] + scopes;
    var declared := DeclSpec(decl, inner, st);
    ThenArmPopsItsScope(x, [], [read], scopes, st);
    // the else arm looks x up in a fresh scope over the original stack
    assert forall j :: 0 <= j < |inner| ==> x.name !in inner[j] by {
      forall j | 0 <= j < |inner| ensures x.name !in inner[j] {
        if j > 0 { assert inner[j] == scopes[j - 1]; }
      }
    }
    var used := Use(use, inner, declared.st);
    assert used.diags == declared.st.diags + [Diag(use.line, use.col, Undeclared)];
    assert StmtsSpec([read], inner, declared.st) == StmtsSpec([], inner, used);
    assert ArmBody(s, true, inner, declared.st) == Res(inner, used, None);
    assert ArmSpec(s, true, scopes, declared.st) == Res(scopes, used, None);
  }

  /** Only an identifier target of an assignment is analysed; its value never is, not even a call. */
  /** The `then` arm of the example binds `x` in its own scope and pops it. */
  lemma ThenArmPopsItsScope(x: Id, elseDecls: seq<Decl>, elseStmts: seq<Stmt>, scopes: Scopes, st: State)
    ensures var s := IfElseStmt(TrueLit(0, 0), [VarDecl(IntegerNode, x, 0)], [], elseDecls, elseStmts);
      ArmSpec(s, false, scopes, st) == Res(scopes, DeclSpec(VarDecl(IntegerNode, x, 0), [map[]] + scopes, st).st, None)
  {
    var s := IfElseStmt(TrueLit(0, 0), [VarDecl(IntegerNode, x, 0)], [], elseDecls, elseStmts);
    var decl := VarDecl(IntegerNode, x, 0);
    var inner := [map[]] + scopes;
    var declared := DeclSpec(decl, inner, st);
    assert declared.scopes == [map[x.name := NewSym("integer")]] + scopes;
    assert DeclsSpec([decl], inner, st) == DeclsSpec([], declared.scopes, declared.st);
    assert ArmBody(s, false, inner, st) == declared;
  }

  lemma AssignAnalysesTargetOnly(lhs: Exp, rhs: Exp, c: Call, scopes: Scopes, st: State)
    ensures AssignSpec(Assign(lhs, rhs), scopes, st) == AssignSpec(Assign(lhs, CallExp(c)), scopes, st)
    ensures ExpSpec(AssignExp(Assign(lhs, CallExp(c))), scopes, st).1 == None
  {
  }

  /** Tuple accesses and calls are not supported, and a `return` without a value dereferences null. */
  lemma UnsupportedConstructs(a: Access, c: Call, scopes: Scopes, st: State)
    ensures ExpSpec(AccessExp(a), scopes, st) == (st, Some(Unsupported))
    ensures StmtSpec(CallStmt(c), scopes, st).fault == Some(Unsupported)
    ensures StmtSpec(ReturnStmt(None), scopes, st).fault == Some(NullPointer)
  {
  }
}
