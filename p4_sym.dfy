/**
 * The symbol of the fourth exercise (p4/Sym.java): a type name and an optional
 * reference to a symbol table (`None` stands for a null table).
 */
module P4Sym {
  import opened Wrappers
  import SymTables

  datatype Sym = Sym(typ: string, table: Option<SymTables.SymTable<Sym>>)

  /** `Sym(String type)`: a symbol with no table. */
  function NewSym(typ: string): (s: Sym)
    ensures GetType(s) == typ && GetTable(s) == None
  {
    Sym(typ, None)
  }

  /** `Sym(String type, SymTable T)`: a symbol carrying the given (possibly null) table. */
  function NewSymWithTable(typ: string, table: Option<SymTables.SymTable<Sym>>): (s: Sym)
    ensures GetType(s) == typ && GetTable(s) == table
    ensures table == None ==> s == NewSym(typ)
  {
    Sym(typ, table)
  }

  function GetType(s: Sym): (t: string)
    ensures s == Sym(t, s.table)
  {
    s.typ
  }

  function GetTable(s: Sym): (table: Option<SymTables.SymTable<Sym>>)
    ensures s == Sym(s.typ, table)
  {
    s.table
  }

  /** `toString` prints the type name only; the table does not show. */
  function ToString(s: Sym): (r: string)
    ensures r == GetType(s)
  {
    s.typ
  }

  /** Symbols that differ only in their table print the same. */
  lemma TableInvisible(typ: string, table: SymTables.SymTable<Sym>)
    ensures ToString(NewSymWithTable(typ, Some(table))) == ToString(NewSym(typ))
    ensures NewSymWithTable(typ, Some(table)) != NewSym(typ)
  {
  }
}
