/**
 * Properties of the fifth exercise's name analysis, stated about the
 * functions of `P5NameSpec`: when a declaration is inserted, which types a
 * function's parameters get, where a tuple's name and fields land, when a use
 * or a colon-access is linked, and that the two arms of an `if`/`else` do
 * not see each other's declarations.
 */
module P5NameFacts {
  import opened Wrappers
  import opened ErrMsg
  import opened Ast
  import opened SymTables
  import opened P5Symbols
  import opened P5NameSpec

  // ---------------------------------------------------------------- uses

  /**
   * A use is linked exactly when some scope binds its name, and then to the
   * innermost binding; otherwise exactly one "Undeclared identifier" is
   * reported and no link is set.
   */
  lemma UseLinksIffFound(id: Id, scopes: Scopes, s: State)
    requires Ready(scopes, s)
    ensures var r := UseId(id, scopes, s);
      (exists j :: 0 <= j < |scopes| && id.name in scopes[j]) ==>
        var k := Innermost(scopes, id.name);
        k < |scopes| && r.idLinks == s.idLinks[id.uid := scopes[k][id.name]] && r.diags == s.diags
    ensures var r := UseId(id, scopes, s);
      (forall j :: 0 <= j < |scopes| ==> id.name !in scopes[j]) ==>
        r.idLinks == s.idLinks && r.diags == s.diags + [Diag(id.line, id.col, Undeclared)]
  {
    LookupIsInnermost(scopes, id.name);
  }

  // ---------------------------------------------------------------- colon-access

  /**
   * The last step of a colon-access links the field exactly when the tuple's
   * field table binds it; otherwise it reports "Invalid tuple field name" and
   * marks the access bad.
   */
  lemma FieldLinkedIffFound(a: Access, fields: Scopes, s: State)
    requires Wf(s) && RefsBelow(fields, |s.syms|)
    ensures var r := LookupField(a, Some(fields), s);
      (exists j :: 0 <= j < |fields| && a.field.name in fields[j]) ==>
        var k := Innermost(fields, a.field.name);
        k < |fields| && r.idLinks == s.idLinks[a.field.uid := fields[k][a.field.name]] &&
        r.diags == s.diags && r.badAccess == s.badAccess
    ensures var r := LookupField(a, Some(fields), s);
      (forall j :: 0 <= j < |fields| ==> a.field.name !in fields[j]) ==>
        r.idLinks == s.idLinks && a.uid in r.badAccess &&
        r.diags == s.diags + [Diag(a.field.line, a.field.col, BadFieldName)]
  {
    LookupIsInnermost(fields, a.field.name);
  }

  /**
   * Every error a colon-access reports for its own step marks it bad, and an
   * access that is not bad has its field linked.
   */
  lemma AccessErrorMarksBad(a: Access, scopes: Scopes, s: State)
    requires Ready(scopes, s)
    ensures var s1 := ResolveLoc(a.loc, scopes, s.(badAccess := s.badAccess - {a.uid}));
      var r := ResolveAccess(a, scopes, s);
      (|r.diags| > |s1.diags| ==> a.uid in r.badAccess) &&
      (a.uid !in r.badAccess ==> a.field.uid in r.idLinks)
  {
    var s1 := ResolveLoc(a.loc, scopes, s.(badAccess := s.badAccess - {a.uid}));
    var res := LocTable(a.loc, s1);
    assert |res.1.diags| > |s1.diags| ==> res.0.None?;
    LookupFieldMarks(a, res.0, res.1);
  }

  /** The field step marks the access bad whenever it reports, and links the field whenever it does not mark it. */
  lemma LookupFieldMarks(a: Access, table: Option<Scopes>, s: State)
    requires Wf(s) && (table.Some? ==> RefsBelow(table.value, |s.syms|))
    ensures var r := LookupField(a, table, s);
      (table.None? || |r.diags| > |s.diags| ==> a.uid in r.badAccess) &&
      (a.uid !in r.badAccess ==> a.field.uid in r.idLinks)
  {
  }

  /**
   * Once the inner step of a chained colon-access is bad, the outer step
   * reports nothing further and is bad itself.
   */
  lemma AccessCascadeSuppressed(a: Access, inner: Access, scopes: Scopes, s: State)
    requires a.loc == LocAccess(inner) && Ready(scopes, s)
    ensures var s1 := ResolveAccess(inner, scopes, s.(badAccess := s.badAccess - {a.uid}));
      var r := ResolveAccess(a, scopes, s);
      inner.uid in s1.badAccess ==>
        r.diags == s1.diags && r.idLinks == s1.idLinks && a.uid in r.badAccess
  {
  }

  // ---------------------------------------------------------------- declarations

  /** A tuple type name, when the type is one, names a tuple definition in `global`. */
  predicate TupleTypeResolves(t: TypeNode, global: Scopes, s: State)
  {
    t.TupleNode? ==>
      var def: Option<nat> := Lookup(global, t.tupleId.name);
      def.Some? && def.value < |s.syms| && s.syms[def.value].TupleDefSym?
  }

  /**
   * What a variable declaration leaves behind. It is inserted into the
   * innermost scope, as a new symbol of the declared type linked from its
   * identifier, exactly when it is not void, its tuple type (if any) names a
   * tuple definition and its name is not already local. Each failed condition
   * reports its own diagnostic, in that order, and a failed declaration adds
   * no symbol and binds nothing.
   */
  predicate VarDeclOutcome(d: Decl, scopes: Scopes, global: Scopes, s: State, r: (Scopes, State))
    requires d.VarDecl? && scopes != []
  {
    var ok := !d.typ.VoidNode? && TupleTypeResolves(d.typ, global, s) && d.id.name !in scopes[0];
    && (ok ==>
          r.0 == [scopes[0][d.id.name := |s.syms|]] + scopes[1..] &&
          |r.1.syms| == |s.syms| + 1 && SymType(r.1.syms[|s.syms|]) == TypeOf(d.typ) &&
          d.id.uid in r.1.idLinks && r.1.idLinks[d.id.uid] == |s.syms|)
    && (!ok ==> r.0 == scopes && r.1.syms == s.syms)
    && r.1.diags == s.diags
         + (if d.typ.VoidNode? then [Diag(d.id.line, d.id.col, NonFctnVoid)] else [])
         + (if d.typ.TupleNode? && !TupleTypeResolves(d.typ, global, s)
            then [Diag(d.typ.tupleId.line, d.typ.tupleId.col, BadTupleTypeName)] else [])
         + (if d.id.name in scopes[0] then [Diag(d.id.line, d.id.col, MultiplyDeclared)] else [])
  }

  /** `VarDeclNode.nameAnalysis` inserts exactly the declarations that pass all three checks. */
  lemma VarDeclInsertedIff(d: Decl, scopes: Scopes, global: Scopes, s: State)
    requires d.VarDecl? && Ready(scopes, s) && Ready(global, s)
    ensures VarDeclOutcome(d, scopes, global, s, VarDeclSpec(d, scopes, global, s))
  {
    if d.typ.TupleNode? {
      var found: Option<nat> := Lookup(global, d.typ.tupleId.name);
      LookupIsInnermost(global, d.typ.tupleId.name);
      if found.None? || !s.syms[found.value].TupleDefSym? {
        VarDeclBadTuple(d, scopes, global, s);
      } else {
        VarDeclGoodTuple(d, scopes, global, s);
      }
    }
  }

  lemma VarDeclBadTuple(d: Decl, scopes: Scopes, global: Scopes, s: State)
    requires d.VarDecl? && Ready(scopes, s) && Ready(global, s) && d.typ.TupleNode?
    requires !TupleTypeResolves(d.typ, global, s)
    ensures VarDeclOutcome(d, scopes, global, s, VarDeclSpec(d, scopes, global, s))
  {
    var t := d.typ.tupleId;
    var found: Option<nat> := Lookup(global, t.name);
    LookupIsInnermost(global, t.name);
    assert found.Some? ==> !s.syms[found.value].TupleDefSym?;
    var s1 := Report(s, t.line, t.col, BadTupleTypeName);
    var s2 := if d.id.name in scopes[0] then Report(s1, d.id.line, d.id.col, MultiplyDeclared) else s1;
    assert VarDeclSpec(d, scopes, global, s) == (scopes, s2);
  }

  lemma VarDeclGoodTuple(d: Decl, scopes: Scopes, global: Scopes, s: State)
    requires d.VarDecl? && Ready(scopes, s) && Ready(global, s) && d.typ.TupleNode?
    requires TupleTypeResolves(d.typ, global, s)
    ensures VarDeclOutcome(d, scopes, global, s, VarDeclSpec(d, scopes, global, s))
  {
    var t := d.typ.tupleId;
    var def := Lookup(global, t.name).value;
    var s1 := LinkId(s, t, def);
    if d.id.name in scopes[0] {
      var s2 := Report(s1, d.id.line, d.id.col, MultiplyDeclared);
      assert VarDeclSpec(d, scopes, global, s) == (scopes, s2);
    } else {
      assert VarDeclSpec(d, scopes, global, s) == Declare(d.id, TupleSym(t.name, def), scopes, s1);
    }
  }

  /**
   * The parameter types a function gets: the types of its formals that are
   * neither void nor a repeat of an earlier accepted name, in order. `names`
   * holds the names already accepted.
   */
  function AcceptedTypes(fs: seq<Formal>, names: set<string>): (ts: seq<Type>)
    ensures |ts| <= |fs|
    ensures forall t :: t in ts ==> !t.VoidType?
  {
    if fs == [] then []
    else if fs[0].typ.VoidNode? || fs[0].id.name in names then AcceptedTypes(fs[1..], names)
    else [TypeOf(fs[0].typ)] + AcceptedTypes(fs[1..], names + {fs[0].id.name})
  }

  /**
   * A void or repeated formal is counted in `numParams` but gets no parameter
   * type, so a function with one holds fewer parameter types than parameters.
   */
  lemma {:induction false} RejectedFormalShortens(fs: seq<Formal>, names: set<string>, k: nat)
    requires k < |fs| && (fs[k].typ.VoidNode? || fs[k].id.name in names)
    ensures |AcceptedTypes(fs, names)| < |fs|
  {
    if k > 0 {
      var f := fs[0];
      var names' := if f.typ.VoidNode? || f.id.name in names then names else names + {f.id.name};
      assert fs[1..][k - 1] == fs[k];
      RejectedFormalShortens(fs[1..], names', k - 1);
    }
  }

  /** The loop over the formals collects exactly the accepted types, the names of the innermost scope counting as accepted. */
  lemma {:induction false} FormalsCollectAccepted(fs: seq<Formal>, i: nat, typeList: seq<Type>, scopes: Scopes, s: State)
    requires i <= |fs| && Ready(scopes, s)
    ensures FormalsFrom(fs, i, typeList, scopes, s).0 == typeList + AcceptedTypes(fs[i..], scopes[0].Keys)
    decreases |fs| - i
  {
    if i == |fs| {
      assert fs[i..] == [];
    } else {
      var f := fs[i];
      var r := FormalSpec(f, scopes, s);
      var step := if r.0.Some? then [TypeOf(f.typ)] else [];
      var rest := AcceptedTypes(fs[i + 1..], r.1[0].Keys);
      assert FormalsFrom(fs, i, typeList, scopes, s).0 == (typeList + step) + rest by {
        FormalsFromStep(fs, i, typeList, scopes, s);
        FormalsCollectAccepted(fs, i + 1, typeList + step, r.1, r.2);
      }
      assert AcceptedTypes(fs[i..], scopes[0].Keys) == step + rest by {
        AcceptedAt(fs, i, scopes[0].Keys);
        FormalAccepted(f, scopes, s);
      }
      assert (typeList + step) + rest == typeList + (step + rest);
    }
  }

  /** `AcceptedTypes` from position `i`, one formal unfolded. */
  lemma AcceptedAt(fs: seq<Formal>, i: nat, names: set<string>)
    requires i < |fs|
    ensures AcceptedTypes(fs[i..], names) ==
      if fs[i].typ.VoidNode? || fs[i].id.name in names then AcceptedTypes(fs[i + 1..], names)
      else [TypeOf(fs[i].typ)] + AcceptedTypes(fs[i + 1..], names + {fs[i].id.name})
  {
    assert fs[i..][0] == fs[i] && fs[i..][1..] == fs[i + 1..];
  }

  /** A formal is declared iff it is not void and its name is not local; declaring it adds its name to the innermost scope's keys. */
  lemma FormalAccepted(f: Formal, scopes: Scopes, s: State)
    requires Ready(scopes, s)
    ensures var (o, sc1, _) := FormalSpec(f, scopes, s);
      (o.Some? <==> !(f.typ.VoidNode? || f.id.name in scopes[0]))
      && (o.Some? ==> sc1[0].Keys == scopes[0].Keys + {f.id.name})
      && (o.None? ==> sc1 == scopes)
  {
    var (o, sc1, _) := FormalSpec(f, scopes, s);
    if o.Some? {
      assert sc1[0] == scopes[0][f.id.name := |s.syms|];
    }
  }

  /** In a newly pushed scope, the formals' loop collects exactly the accepted types. */
  lemma FormalsInNewScope(fs: seq<Formal>, scopes: Scopes, s: State)
    requires Ready(scopes, s)
    ensures FormalsSpec(fs, [map[]] + scopes, s).0 == AcceptedTypes(fs, {})
  {
    var inner: Scopes := [map[]] + scopes;
    FormalsCollectAccepted(fs, 0, [], inner, s);
    assert inner[0].Keys == {};
    assert fs[0..] == fs;
  }

  /**
   * A function whose name is not already local is declared in the enclosing
   * scope as a new function symbol whose parameter types are the accepted
   * formals' types, in order; the stack has its old depth afterwards.
   */
  lemma FctnParamTypes(d: Decl, scopes: Scopes, s: State)
    requires d.FctnDecl? && Ready(scopes, s) && d.id.name !in scopes[0]
    ensures var r := FctnDeclSpec(d, scopes, s);
      r.0 == [scopes[0][d.id.name := |s.syms|]] + scopes[1..] &&
      |s.syms| < |r.1.syms| &&
      r.1.syms[|s.syms|] == FctnSym(TypeOf(d.ret), |d.formals|, AcceptedTypes(d.formals, {}))
  {
    var (sc1, s1) := FctnNameSpec(d, scopes, s);
    var inner: Scopes := [map[]] + sc1;
    var (types, sc2, s2) := FormalsSpec(d.formals, inner, s1);
    FormalsInNewScope(d.formals, sc1, s1);
    var s3 := AddFormals(s2, |s.syms|, types);
    var (sc4, s4) := BodySpec(d.body, sc2, s3);
    assert FctnDeclSpec(d, scopes, s) == (sc4[1..], s4);
    assert sc4[1..] == sc2[1..] == sc1;
    assert s1.syms[|s.syms|] == FctnSym(TypeOf(d.ret), |d.formals|, []);
    assert s3.syms[|s.syms|] == FctnSym(TypeOf(d.ret), |d.formals|, types);
    assert s4.syms[|s.syms|] == s3.syms[|s.syms|];
  }

  /**
   * A function whose name is already local reports "Multiply-declared
   * identifier" before anything else, declares nothing in the enclosing scope
   * and attaches no parameter types to any existing symbol.
   */
  lemma FctnDuplicateReported(d: Decl, scopes: Scopes, s: State)
    requires d.FctnDecl? && Ready(scopes, s) && d.id.name in scopes[0]
    ensures var r := FctnDeclSpec(d, scopes, s);
      r.0 == scopes && |s.diags| < |r.1.diags| &&
      r.1.diags[|s.diags|] == Diag(d.id.line, d.id.col, MultiplyDeclared) &&
      r.1.syms[..|s.syms|] == s.syms
  {
    var (sc1, s1) := FctnNameSpec(d, scopes, s);
    var inner: Scopes := [map[]] + sc1;
    var (types, sc2, s2) := FormalsSpec(d.formals, inner, s1);
    var (sc4, s4) := BodySpec(d.body, sc2, s2);
    assert FctnDeclSpec(d, scopes, s) == (sc4[1..], s4);
    assert sc4[1..] == sc2[1..] == sc1 == scopes;
    assert s1.diags[|s.diags|] == Diag(d.id.line, d.id.col, MultiplyDeclared);
    assert s4.diags[|s.diags|] == s1.diags[|s.diags|];
  }

  /**
   * A tuple's fields are analysed first, in a fresh one-scope table; its name
   * is bound afterwards, in the enclosing scope, to a new tuple definition
   * placed after every field symbol and holding the field table, unless the
   * name was already local, which reports "Multiply-declared identifier" and
   * binds nothing.
   */
  lemma TupleNameAfterFields(d: Decl, scopes: Scopes, s: State)
    requires d.TupleDecl? && Ready(scopes, s)
    ensures var r := TupleDeclSpec(d, scopes, s);
      var fields := DeclsSpec(d.fields, [map[]], Some(scopes), s);
      d.id.name !in scopes[0] ==>
        |fields.0| == 1 && |s.syms| <= |fields.1.syms| &&
        r.0 == [scopes[0][d.id.name := |fields.1.syms|]] + scopes[1..] &&
        r.1.syms == fields.1.syms + [TupleDefSym(fields.0)]
    ensures var r := TupleDeclSpec(d, scopes, s);
      d.id.name in scopes[0] ==>
        r.0 == scopes && |s.diags| < |r.1.diags| &&
        r.1.diags[|s.diags|] == Diag(d.id.line, d.id.col, MultiplyDeclared)
  {
  }

  /** A tuple's field may share a name with a variable of the enclosing scope: the field table is a table of its own. */
  lemma FieldMayReuseOuterName(d: Decl, x: Id, size: int, scopes: Scopes, s: State)
    requires d.TupleDecl? && Ready(scopes, s)
    requires d.fields == [VarDecl(IntegerNode, x, size)]
    requires x.name in scopes[0] && d.id.name !in scopes[0]
    ensures TupleDeclSpec(d, scopes, s).1.diags == s.diags
  {
    var fresh0: Scopes := [map[]];
    var (sc1, s1) := VarDeclSpec(d.fields[0], fresh0, scopes, s);
    assert s1.diags == s.diags;
    assert DeclsSpec(d.fields, fresh0, Some(scopes), s) == DeclsSpec([], sc1, Some(scopes), s1);
  }

  // ---------------------------------------------------------------- statements

  /**
   * The two arms of an `if`/`else` get scopes of their own: a name the
   * enclosing scopes do not bind is undeclared in the `else` arm, whatever the
   * `then` arm declared.
   */
  lemma ElseArmDoesNotSeeThenArm(c: Exp, thenDs: seq<Decl>, thenSs: seq<Stmt>, x: Id, scopes: Scopes, s: State)
    requires Ready(scopes, s)
    requires forall j :: 0 <= j < |scopes| ==> x.name !in scopes[j]
    ensures var r := StmtSpec(IfElseStmt(c, thenDs, thenSs, [], [WriteStmt(IdExp(x))]), scopes, s);
      |r.diags| > 0 && r.diags[|r.diags| - 1] == Diag(x.line, x.col, Undeclared)
  {
    var armScopes: Scopes := [map[]] + scopes;
    var s0 := ResolveExp(c, scopes, s);
    NewScopeReady(scopes, s, s0);
    var (sc1, s1) := DeclsSpec(thenDs, armScopes, None, s0);
    var s2 := StmtsSpec(thenSs, sc1, s1);
    assert |s.syms| <= |s0.syms| <= |s1.syms| <= |s2.syms|;
    NewScopeReady(scopes, s, s2);
    WriteUndeclared(x, armScopes, s2);
    var elseSs := [WriteStmt(IdExp(x))];
    assert StmtSpec(IfElseStmt(c, thenDs, thenSs, [], elseSs), scopes, s) == StmtsSpec(elseSs, DeclsSpec([], armScopes, None, s2).0, s2);
  }

  /** A newly pushed scope on valid scopes is valid for any later well-formed state. */
  lemma NewScopeReady(scopes: Scopes, s: State, t: State)
    requires Ready(scopes, s) && Wf(t) && |s.syms| <= |t.syms|
    ensures Ready([map[]] + scopes, t)
  {
    var pushed: Scopes := [map[]] + scopes;
    forall j, k | 0 <= j < |pushed| && k in pushed[j]
      ensures pushed[j][k] < |t.syms|
    {
      assert pushed[j] == scopes[j - 1];
    }
  }

  /** An arm that declares nothing and writes `x`, in scopes none of which binds `x`, reports it undeclared. */
  lemma WriteUndeclared(x: Id, armScopes: Scopes, s: State)
    requires Ready(armScopes, s)
    requires forall j :: 0 <= j < |armScopes| ==> x.name !in armScopes[j]
    ensures var (sc, s1) := DeclsSpec([], armScopes, None, s);
      StmtsSpec([WriteStmt(IdExp(x))], sc, s1).diags == s.diags + [Diag(x.line, x.col, Undeclared)]
  {
    assert DeclsSpec([], armScopes, None, s) == (armScopes, s);
    LookupIsInnermost(armScopes, x.name);
    var found: Option<nat> := Lookup(armScopes, x.name);
    assert found.None?;
    var s3 := Report(s, x.line, x.col, Undeclared);
    assert UseId(x, armScopes, s) == s3;
    assert ResolveExp(IdExp(x), armScopes, s) == s3;
    assert StmtSpec(WriteStmt(IdExp(x)), armScopes, s) == s3;
    assert [WriteStmt(IdExp(x))][1..] == [];
    assert StmtsSpec([WriteStmt(IdExp(x))], armScopes, s) == StmtsSpec([], armScopes, s3);
  }
}
