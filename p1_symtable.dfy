/**
 * The scoped symbol table of the first exercise (p1/SymTable.java): a list of
 * maps from names to symbols, the innermost scope at the front. The table is
 * generic in the symbol type so the later passes can reuse it unchanged.
 */
module SymTables {
  import opened Wrappers

  /** The three checked exceptions the table throws. */
  datatype TableError = IllegalArgument | EmptySymTable | DuplicateSymName

  /** Outcome of a `void` method that may throw. */
  datatype Outcome = Done | Thrown(error: TableError)

  /** Outcome of a lookup: the symbol returned (`None` is Java's null) or the exception thrown. */
  datatype Found<S> = Returned(sym: Option<S>) | Raised(error: TableError)

  /**
   * What `lookupGlobal` computes on a non-empty list: the symbol bound to `name`
   * in the innermost scope that binds it.
   */
  function Lookup<S>(scopes: seq<map<string, S>>, name: string): Option<S>
  {
    if scopes == [] then None
    else if name in scopes[0] then Some(scopes[0][name])
    else Lookup(scopes[1..], name)
  }

  /** Index of the innermost scope that binds `name`, or `|scopes|` when none does. */
  function Innermost<S>(scopes: seq<map<string, S>>, name: string): (k: nat)
    ensures k <= |scopes|
    ensures k < |scopes| ==> name in scopes[k]
    ensures forall j :: 0 <= j < k ==> name !in scopes[j]
  {
    if scopes == [] then 0
    else if name in scopes[0] then 0
    else 1 + Innermost(scopes[1..], name)
  }

  /**
   * Lookup finds a symbol exactly when some scope binds the name, and then it is
   * the binding of the innermost such scope: inner declarations shadow outer ones.
   */
  lemma {:induction false} LookupIsInnermost<S>(scopes: seq<map<string, S>>, name: string)
    ensures Lookup(scopes, name).Some? <==> exists j :: 0 <= j < |scopes| && name in scopes[j]
    ensures Lookup(scopes, name).Some? ==>
      var k := Innermost(scopes, name);
      k < |scopes| && Lookup(scopes, name).value == scopes[k][name]
  {
    if scopes != [] && name !in scopes[0] {
      LookupIsInnermost(scopes[1..], name);
      if exists j :: 0 <= j < |scopes| && name in scopes[j] {
        var j :| 0 <= j < |scopes| && name in scopes[j];
        assert j != 0;
        assert name in scopes[1..][j - 1];
      }
      if exists j :: 0 <= j < |scopes| - 1 && name in scopes[1..][j] {
        var j :| 0 <= j < |scopes| - 1 && name in scopes[1..][j];
        assert name in scopes[j + 1];
      }
    }
  }

  /** Step of the scan over the scope list that `lookupGlobal` performs. */
  lemma LookupFrom<S>(scopes: seq<map<string, S>>, i: nat, name: string)
    requires i < |scopes|
    ensures Lookup(scopes[i..], name) ==
      if name in scopes[i] then Some(scopes[i][name]) else Lookup(scopes[i + 1..], name)
  {
    assert scopes[i..][1..] == scopes[i + 1..];
  }

  /**
   * The inner loop of `lookupLocal` and `lookupGlobal`: scan the key set of one
   * scope for a key equal to `name`.
   */
  method FindKey<S>(scope: map<string, S>, name: string) returns (r: Option<S>)
    ensures r.Some? <==> name in scope
    ensures r.Some? ==> r.value == scope[name]
  {
    var keys := scope.Keys;
    while keys != {}
      invariant keys <= scope.Keys
      invariant name in scope ==> name in keys
      decreases keys
    {
      var key :| key in keys;
      if key == name {
        return Some(scope[key]);
      }
      keys := keys - {key};
    }
    return None;
  }

  class SymTable<S> {
    /** The scopes, innermost first (Java's `List<HashMap<String,Sym>>`). */
    var scopes: seq<map<string, S>>

    /** A new table holds one empty scope. */
    constructor ()
      ensures scopes == [map[]]
    {
      scopes := [map[]];
    }

    /**
     * Declares `name` in the innermost scope. The checks come in the source's
     * order: a null argument, then an empty table, then a name already bound in
     * the innermost scope; only when all pass is the binding added.
     */
    method AddDecl(name: Option<string>, sym: Option<S>) returns (r: Outcome)
      modifies this
      ensures name.None? || sym.None? ==> r == Thrown(IllegalArgument)
      ensures name.Some? && sym.Some? && old(scopes) == [] ==> r == Thrown(EmptySymTable)
      ensures name.Some? && sym.Some? && old(scopes) != [] && name.value in old(scopes)[0] ==>
        r == Thrown(DuplicateSymName)
      ensures r == Done <==> name.Some? && sym.Some? && old(scopes) != [] && name.value !in old(scopes)[0]
      ensures r == Done ==> scopes == [old(scopes)[0][name.value := sym.value]] + old(scopes)[1..]
      ensures r != Done ==> scopes == old(scopes)
    {
      if name.None? || sym.None? {
        return Thrown(IllegalArgument);
      }
      if scopes == [] {
        return Thrown(EmptySymTable);
      }
      var local := LookupLocal(name.value);
      if local.sym.Some? {
        return Thrown(DuplicateSymName);
      }
      scopes := [scopes[0][name.value := sym.value]] + scopes[1..];
      return Done;
    }

    /** Pushes a new, empty innermost scope. */
    method AddScope()
      modifies this
      ensures scopes == [map[]] + old(scopes)
    {
      scopes := [map[]] + scopes;
    }

    /** Looks `name` up in the innermost scope only; throws on an empty table. */
    method LookupLocal(name: string) returns (r: Found<S>)
      ensures scopes == [] <==> r == Raised(EmptySymTable)
      ensures scopes != [] ==> r.Returned? && (r.sym.Some? <==> name in scopes[0])
      ensures scopes != [] && r.sym.Some? ==> r.sym.value == scopes[0][name]
    {
      if scopes == [] {
        return Raised(EmptySymTable);
      }
      var found := FindKey(scopes[0], name);
      return Returned(found);
    }

    /**
     * Looks `name` up scope by scope, innermost first, and returns the first
     * binding met; throws on an empty table.
     */
    method LookupGlobal(name: string) returns (r: Found<S>)
      ensures scopes == [] <==> r == Raised(EmptySymTable)
      ensures scopes != [] ==> r == Returned(Lookup(scopes, name))
    {
      if scopes == [] {
        return Raised(EmptySymTable);
      }
      var i := 0;
      while i < |scopes|
        invariant 0 <= i <= |scopes|
        invariant Lookup(scopes, name) == Lookup(scopes[i..], name)
      {
        LookupFrom(scopes, i, name);
        var found := FindKey(scopes[i], name);
        if found.Some? {
          return Returned(found);
        }
        i := i + 1;
      }
      return Returned(None);
    }

    /** Pops the innermost scope; throws on an empty table. */
    method RemoveScope() returns (r: Outcome)
      modifies this
      ensures r == (if old(scopes) == [] then Thrown(EmptySymTable) else Done)
      ensures r == Done ==> scopes == old(scopes)[1..]
      ensures r != Done ==> scopes == old(scopes)
    {
      if scopes == [] {
        return Thrown(EmptySymTable);
      }
      scopes := scopes[1..];
      return Done;
    }
  }

  /** A binding just added to the innermost scope is what a global lookup then finds. */
  lemma DeclThenLookup<S>(scopes: seq<map<string, S>>, name: string, sym: S)
    requires scopes != []
    ensures Lookup([scopes[0][name := sym]] + scopes[1..], name) == Some(sym)
  {
  }

  /**
   * Adding a binding changes only what that one name resolves to.
   */
  lemma {:induction false} DeclKeepsOthers<S>(scopes: seq<map<string, S>>, name: string, sym: S, other: string)
    requires scopes != [] && other != name
    ensures Lookup([scopes[0][name := sym]] + scopes[1..], other) == Lookup(scopes, other)
  {
    var updated := [scopes[0][name := sym]] + scopes[1..];
    assert updated[1..] == scopes[1..];
  }

  /** Pushing an empty scope leaves every global lookup as it was. */
  lemma PushPreservesLookup<S>(scopes: seq<map<string, S>>, name: string)
    ensures Lookup([map[]] + scopes, name) == Lookup(scopes, name)
  {
    assert ([map[]] + scopes)[1..] == scopes;
  }

  /**
   * Popping an innermost scope that binds none of the names removes nothing
   * visible; in particular a push followed by a pop restores every lookup.
   */
  lemma PopUnshadows<S>(scopes: seq<map<string, S>>, name: string)
    requires scopes != [] && name !in scopes[0]
    ensures Lookup(scopes[1..], name) == Lookup(scopes, name)
  {
  }

  /**
   * A binding in an outer scope is hidden from `lookupLocal` after a push but is
   * still found by `lookupGlobal`.
   */
  lemma {:induction false} OuterVisibleGlobally<S>(scopes: seq<map<string, S>>, name: string)
    requires exists j :: 0 <= j < |scopes| && name in scopes[j]
    ensures var pushed := [map[]] + scopes;
      name !in pushed[0] && Lookup(pushed, name).Some?
  {
    LookupIsInnermost(scopes, name);
    PushPreservesLookup(scopes, name);
  }

  /** A fresh table: both lookups return null for every name. */
  method FreshTableLookups(name: string) returns (local: Found<int>, global: Found<int>)
    ensures local == Returned(None) && global == Returned(None)
  {
    var t := new SymTable<int>();
    local := t.LookupLocal(name);
    global := t.LookupGlobal(name);
  }

  /** A fresh table holds one scope: the first removal succeeds, the second throws. */
  method RemoveTwice() returns (first: Outcome, second: Outcome, lookup: Found<int>)
    ensures first == Done && second == Thrown(EmptySymTable)
    ensures lookup == Raised(EmptySymTable)
  {
    var t := new SymTable<int>();
    first := t.RemoveScope();
    assert t.scopes == [];
    second := t.RemoveScope();
    lookup := t.LookupGlobal("x");
  }

  /**
   * Declaring a name twice in one scope throws and keeps the first binding;
   * the same name may be declared again in a newly pushed scope, where it
   * shadows the outer binding until that scope is removed.
   */
  method DuplicateAndShadow(a: int, b: int) returns (dup: Outcome, inner: Outcome, seen: Found<int>, after: Found<int>)
    ensures dup == Thrown(DuplicateSymName) && inner == Done
    ensures seen == Returned(Some(b)) && after == Returned(Some(a))
  {
    var t := new SymTable<int>();
    var first := t.AddDecl(Some("x"), Some(a));
    var outer := t.scopes;
    dup := t.AddDecl(Some("x"), Some(b));
    t.AddScope();
    inner := t.AddDecl(Some("x"), Some(b));
    seen := t.LookupGlobal("x");
    var popped := t.RemoveScope();
    assert t.scopes == outer;
    after := t.LookupGlobal("x");
  }

  /** A null name or symbol is refused before anything else is looked at. */
  method NullArguments() returns (noName: Outcome, noSym: Outcome, onEmpty: Outcome)
    ensures noName == Thrown(IllegalArgument) && noSym == Thrown(IllegalArgument)
    ensures onEmpty == Thrown(EmptySymTable)
  {
    var t := new SymTable<int>();
    noName := t.AddDecl(None, Some(1));
    var popped := t.RemoveScope();
    assert t.scopes == [];
    noSym := t.AddDecl(Some("x"), None);
    onEmpty := t.AddDecl(Some("x"), Some(1));
  }
}
