/** The symbol of the first exercise (p1/Sym.java): an immutable record of a type name. */
module P1Sym {
  datatype Sym = Sym(typ: string)

  /** `getType`: the type name the symbol was built with. */
  function GetType(s: Sym): (t: string)
    ensures Sym(t) == s
  {
    s.typ
  }

  /** `toString` prints the type name and nothing else. */
  function ToString(s: Sym): (r: string)
    ensures r == GetType(s)
    ensures |r| == |s.typ|
  {
    s.typ
  }

  /** Two symbols are indistinguishable exactly when their type names agree. */
  lemma SameType(a: Sym, b: Sym)
    ensures a == b <==> GetType(a) == GetType(b)
    ensures ToString(a) == ToString(b) <==> a == b
  {
  }
}
