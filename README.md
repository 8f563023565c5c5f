# Semantic analysis of a small compiler front end, in Dafny

This project models the semantic-analysis layer of a compiler front end for a
small imperative language. The language has integer, logical and void types,
tuples with `:` field access, functions, `if`/`else`, `while`, `cin`/`cout`
and `return`. The model covers four parts, each proved against the
properties its source promises.

- **The scope-stack symbol table** (`SymTables`, p1/SymTable.java).
  - It is a class whose `scopes` field is a sequence of maps, with the
    innermost scope at index 0.
  - `AddDecl`, `AddScope`, `LookupLocal`, `LookupGlobal` and `RemoveScope`
    update or read that field. Their exceptions are modelled as returned
    outcomes: `IllegalArgument`, `EmptySymTable` and `DuplicateSymName`.
  - `Lookup` is the pure function that `lookupGlobal` computes.
  - The same class, with a different symbol type, serves the two later
    passes.
- **The symbol records** of the first and fourth exercises (`P1Sym`,
  `P4Sym`). These are immutable values.
- **Name analysis of the fifth exercise**:
  - `P5NameSpec` gives pure functions of the scope stack and an analysis
    state.
  - `P5NameAnalysis.Resolver` is the imperative walk. It pushes, pops and
    adds to a `SymTable` object in place and updates its state field. Each of
    its methods is proved to compute the matching spec function.
  - The state holds the symbol arena, the links written into tree nodes
    (`IdNode.mySym`, `TupleAccessNode.mySym` and `badAccess`,
    `FctnDeclNode.mySym`) and the diagnostics reported so far.
  - `P5NameFacts` proves the pass's properties about the spec functions.
- **Type checking of the fifth exercise** (`P5TypeChecker`). It is a set of
  functions from a tree and the resolved links to the list of
  `(line, column, message)` diagnostics. `P5TypeCheckerFacts` holds its
  properties.
- **The earlier name analysis of the fourth exercise**, which behaves
  differently from the fifth. `P4NameSpec` gives its pure functions,
  `P4NameAnalysis.Analyzer` is the imperative walk proved against them, and
  `P4NameFacts` holds its properties. It differs in these ways:
  - void variables are still inserted;
  - a function's name is declared inside the function's own scope;
  - a tuple's scope is never popped;
  - tuple accesses, calls and value-less returns abort the pass. These are
    modelled as a returned fault.

`ErrMsg.fatal` appends a `Diag(line, col, msg)` to a sequence, and the pass
continues.

## Model

| member | source | states |
|---|---|---|
| SymTables.SymTable.constructor | p1/SymTable.java:25-27 | a new table holds exactly one empty scope |
| SymTables.SymTable.AddDecl | p1/SymTable.java:41-61 | a missing name or symbol throws IllegalArgument before the empty-table check; an empty table throws EmptySymTable; a name already in the front scope throws DuplicateSymName and leaves the table as it was; otherwise only the front map gains the binding |
| SymTables.SymTable.AddScope | p1/SymTable.java:66-68 | pushes one empty map at the front and keeps the rest |
| SymTables.SymTable.LookupLocal | p1/SymTable.java:79-91 | throws EmptySymTable exactly when there is no scope; otherwise finds a symbol iff the front scope binds the name, and returns that binding |
| SymTables.SymTable.LookupGlobal | p1/SymTable.java:103-117 | throws EmptySymTable exactly when there is no scope; otherwise returns the innermost binding of the name, or none |
| SymTables.SymTable.RemoveScope | p1/SymTable.java:127-135 | throws exactly when the table was already empty; otherwise drops only the front map |
| SymTables.Lookup | p1/SymTable.java:103-117 | no contract of its own; `SymTables.LookupIsInnermost` states that it finds a name iff some scope binds it, and returns the innermost binding |
| SymTables.FindKey | p1/SymTable.java:84-89 | the scan over one scope's keys finds a symbol iff the name is a key, and returns its binding |
| SymTables.Innermost | p1/SymTable.java:108-114 | the index of the first scope that binds the name; no earlier scope binds it |
| SymTables.LookupIsInnermost | p1/SymTable.java:103-117 | a global lookup succeeds iff some scope binds the name, and it returns the innermost binding |
| SymTables.LookupFrom | p1/SymTable.java:108-114 | one step of the scan: the scope at the position answers if it binds the name, else the rest of the list does |
| SymTables.DeclThenLookup | p1/SymTable.java:60 | after a successful declaration, a lookup of that name returns exactly the new symbol |
| SymTables.DeclKeepsOthers | p1/SymTable.java:60 | a declaration does not change the lookup of any other name |
| SymTables.PushPreservesLookup | p1/SymTable.java:66-68 | pushing an empty scope changes no global lookup |
| SymTables.PopUnshadows | p1/SymTable.java:127-135 | popping a scope that does not bind a name leaves that name's global lookup unchanged |
| SymTables.OuterVisibleGlobally | p1/SymTable.java:66-68 | after a push, a declared name is no longer local but is still found globally |
| SymTables.FreshTableLookups | p1/P1.java:241-247 | on a new table both lookups of any name return null |
| SymTables.RemoveTwice | p1/P1.java:102-123 | on a new table the first removal succeeds, the second throws, and a later lookup throws |
| SymTables.DuplicateAndShadow | p1/P1.java:191-204 | redeclaring in the same scope throws DuplicateSymName; the same name in a pushed scope shadows the outer one until that scope is popped |
| SymTables.NullArguments | p1/P1.java:133-167 | a null name or symbol throws IllegalArgument, even on an empty table; a good declaration on an empty table throws EmptySymTable |
| P1Sym.GetType | p1/Sym.java:29-31 | returns exactly the string the symbol was built from |
| P1Sym.ToString | p1/Sym.java:38-40 | equals the symbol's type string |
| P1Sym.SameType | p1/Sym.java:21-40 | two symbols are equal iff their type strings are equal, and iff their printed forms are |
| P4Sym.NewSym | p4/Sym.java:5-7 | the one-argument constructor keeps the type and has no table |
| P4Sym.NewSymWithTable | p4/Sym.java:9-12 | the two-argument constructor keeps both the type and the table |
| P4Sym.GetType | p4/Sym.java:14-16 | returns the constructor's type string |
| P4Sym.GetTable | p4/Sym.java:18-20 | returns the constructor's table, or none after the one-argument constructor |
| P4Sym.ToString | p4/Sym.java:22-24 | equals the type string |
| P4Sym.TableInvisible | p4/Sym.java:22-24 | the printed form ignores the table, although symbols with and without one differ |
| P5Symbols.SymType | p5/ast.java:1187-1196 | a symbol has function type iff it is a function symbol, and tuple-definition type iff it is a tuple definition |
| P5Symbols.Report | p5/ast.java:1493 | reporting appends exactly one diagnostic and changes nothing else |
| P5NameSpec.TypeOf | p5/ast.java:768-823 | each type node gives its own type: void iff `void`, a tuple type iff a tuple type name, never a function or tuple-definition type |
| P5NameSpec.LinkId | p5/ast.java:1449-1451 | linking an identifier sets its link to the symbol and changes no other link and nothing else in the state |
| P5NameSpec.UseId | p5/ast.java:1487-1500 | a use changes only links and diagnostics, and keeps every link valid |
| P5NameSpec.ResolveExp | p5/ast.java:1771-1774 | analysing an expression never adds or changes a symbol, and diagnostics only grow |
| P5NameSpec.ResolveExps | p5/ast.java:275-279 | the argument list, in order; symbols unchanged |
| P5NameSpec.ResolveCall | p5/ast.java:1831-1834 | callee then arguments; symbols unchanged |
| P5NameSpec.ResolveLoc | p5/ast.java:1611 | the location of an access is analysed first; symbols unchanged |
| P5NameSpec.LocTable | p5/ast.java:1614-1659 | the table found for a location refers only to existing symbols; this step changes no link |
| P5NameSpec.ResolveAccess | p5/ast.java:1606-1690 | a whole colon-access changes only links, bad flags and diagnostics |
| P5NameSpec.LookupField | p5/ast.java:1662-1689 | the field step changes only links, bad flags and diagnostics |
| P5NameSpec.Declare | p5/ast.java:460-476 | an insertion adds one symbol, changes only the innermost scope and keeps every reference valid |
| P5NameSpec.VarDeclSpec | p5/ast.java:412-478 | a variable declaration changes only the innermost scope; symbols and diagnostics only grow |
| P5NameSpec.FormalSpec | p5/ast.java:619-659 | a declared formal's symbol is a new plain symbol of the formal's type |
| P5NameSpec.FormalsSpec | p5/ast.java:308-317 | the formals change only the innermost scope |
| P5NameSpec.FormalsFrom | p5/ast.java:310-315 | the rest of the formals' loop changes only the innermost scope |
| P5NameSpec.FormalsFromStep | p5/ast.java:310-315 | one turn of the loop adds the formal's type iff the formal was declared |
| P5NameSpec.AddFormals | p5/ast.java:569 | attaching parameter types changes only the one function symbol and keeps the state valid |
| P5NameSpec.DeclsSpec | p5/ast.java:177-185 | a declaration list changes only the innermost scope; symbols and diagnostics only grow |
| P5NameSpec.DeclsStep | p5/ast.java:179-184 | one turn of the declaration loop |
| P5NameSpec.DeclSpec | p5/ast.java:177-185 | a variable gets both tables, the other declarations only the local one |
| P5NameSpec.FctnDeclSpec | p5/ast.java:533-583 | a function declaration leaves the stack at its old depth, changing only the innermost scope |
| P5NameSpec.FctnNameSpec | p5/ast.java:535-560 | a non-duplicate function name gets a new function symbol |
| P5NameSpec.BodySpec | p5/ast.java:358-361 | declarations, then statements |
| P5NameSpec.TupleDeclSpec | p5/ast.java:693-730 | a tuple declaration changes only the innermost scope |
| P5NameSpec.StmtsSpec | p5/ast.java:222-226 | statements leave the scopes valid; symbols and diagnostics only grow |
| P5NameSpec.StmtSpec | p5/ast.java:1051-1073 | a statement's blocks push and pop their own scope, so the scopes are valid afterwards |
| P5NameSpec.ProgramSpec | p5/ast.java:139-142 | the program is analysed in a one-scope table, which still has one scope afterwards |
| P5NameAnalysis.Resolver.constructor | p5/ast.java:139-142 | the analysis starts with no symbols, no links and no diagnostics |
| P5NameAnalysis.Resolver.Fatal | p5/ast.java:1493 | a report appends exactly one diagnostic at the given position and changes nothing else |
| P5NameAnalysis.Resolver.UseId | p5/ast.java:1487-1500 | the imperative use computes `P5NameSpec.UseId` |
| P5NameAnalysis.Resolver.ResolveExp | p5/ast.java:1370-1371 | computes `P5NameSpec.ResolveExp` |
| P5NameAnalysis.Resolver.ResolveOperands | p5/ast.java:1879-1882 | the left operand, then the right, each analysed in the same scopes |
| P5NameAnalysis.Resolver.ResolveExps | p5/ast.java:275-279 | the loop over the arguments computes `P5NameSpec.ResolveExps` |
| P5NameAnalysis.Resolver.ResolveCall | p5/ast.java:1831-1834 | computes `P5NameSpec.ResolveCall` |
| P5NameAnalysis.Resolver.ResolveLoc | p5/ast.java:1611 | computes `P5NameSpec.ResolveLoc` |
| P5NameAnalysis.Resolver.ResolveAccess | p5/ast.java:1606-1690 | computes `P5NameSpec.ResolveAccess` |
| P5NameAnalysis.Resolver.LocTable | p5/ast.java:1614-1659 | computes `P5NameSpec.LocTable` |
| P5NameAnalysis.Resolver.LookupField | p5/ast.java:1662-1689 | computes `P5NameSpec.LookupField` |
| P5NameAnalysis.Resolver.Insert | p5/ast.java:460-476 | `addDecl` and `link` compute `P5NameSpec.Declare` |
| P5NameAnalysis.Resolver.VarDecl | p5/ast.java:412-478 | computes `P5NameSpec.VarDeclSpec` |
| P5NameAnalysis.Resolver.Formal | p5/ast.java:619-659 | computes `P5NameSpec.FormalSpec` |
| P5NameAnalysis.Resolver.Formals | p5/ast.java:308-317 | the loop computes `P5NameSpec.FormalsSpec` |
| P5NameAnalysis.Resolver.FormalsTurn | p5/ast.java:310-315 | one turn of the formals loop |
| P5NameAnalysis.Resolver.DeclList | p5/ast.java:177-185 | the loop computes `P5NameSpec.DeclsSpec` |
| P5NameAnalysis.Resolver.DeclAt | p5/ast.java:179-184 | one turn of the declaration loop |
| P5NameAnalysis.Resolver.Decl | p5/ast.java:180-183 | computes `P5NameSpec.DeclSpec` |
| P5NameAnalysis.Resolver.FctnDecl | p5/ast.java:533-583 | computes `P5NameSpec.FctnDeclSpec`, with the scope pushed and popped in place |
| P5NameAnalysis.Resolver.FctnName | p5/ast.java:535-560 | reports whether the name was a local duplicate, and computes `P5NameSpec.FctnNameSpec` |
| P5NameAnalysis.Resolver.Body | p5/ast.java:358-361 | computes `P5NameSpec.BodySpec` |
| P5NameAnalysis.Resolver.TupleDecl | p5/ast.java:693-730 | computes `P5NameSpec.TupleDeclSpec` |
| P5NameAnalysis.Resolver.StmtList | p5/ast.java:222-226 | leaves the table as it found it, and computes `P5NameSpec.StmtsSpec` |
| P5NameAnalysis.Resolver.Stmt | p5/ast.java:857-1312 | leaves the table exactly as it found it, and computes `P5NameSpec.StmtSpec` |
| P5NameAnalysis.Resolver.Guarded | p5/ast.java:974-986 | the guard, then the block in a scope of its own; the table is left as it was, and the result is `P5NameSpec.StmtSpec` |
| P5NameAnalysis.Resolver.IfElse | p5/ast.java:1051-1073 | the guard, then each arm in its own pushed and popped scope; the table is left as it was, and the result is `P5NameSpec.StmtSpec` |
| P5NameAnalysis.Resolver.Block | p5/ast.java:976-985 | push, declarations, statements, pop: the table is restored and the state is the block's declarations then statements analysed in a new innermost scope |
| P5NameAnalysis.Resolver.Program | p5/ast.java:139-142 | computes `P5NameSpec.ProgramSpec` |
| P5NameFacts.UseLinksIffFound | p5/ast.java:1487-1500 | a use is linked iff some scope binds the name, and then to the innermost binding with no report; otherwise exactly one "Undeclared identifier" and no link |
| P5NameFacts.FieldLinkedIffFound | p5/ast.java:1662-1689 | the field is linked iff the tuple's field table binds it; otherwise one "Invalid tuple field name" and the access is marked bad |
| P5NameFacts.AccessErrorMarksBad | p5/ast.java:1606-1690 | any error an access reports for its own step marks it bad, and an access that is not bad has its field linked |
| P5NameFacts.AccessCascadeSuppressed | p5/ast.java:1636-1640 | once the inner access of a chain is bad, the outer one reports nothing more and is bad too |
| P5NameFacts.VarDeclInsertedIff | p5/ast.java:412-478 | a variable is inserted and linked, as a new symbol of its declared type, iff it is not void, its tuple type names a tuple definition and the name is not local; each failure reports its own message, in order; a failure adds no symbol |
| P5NameFacts.VarDeclBadTuple | p5/ast.java:432-447 | the variable-declaration outcome when the tuple type name is not a tuple definition |
| P5NameFacts.VarDeclGoodTuple | p5/ast.java:432-447 | the variable-declaration outcome when the tuple type name resolves |
| P5NameFacts.AcceptedTypes | p5/ast.java:308-317 | the reference list of parameter types: no more types than formals, and never void |
| P5NameFacts.FormalsCollectAccepted | p5/ast.java:308-317 | the formals loop collects exactly the accepted types, in order |
| P5NameFacts.RejectedFormalShortens | p5/ast.java:308-317 | a void or repeated formal leaves fewer parameter types than formals, so `numParams` and the parameter-type list can disagree |
| P5NameFacts.AcceptedAt | p5/ast.java:308-317 | a formal is accepted iff it is not void and its name is not yet accepted; an accepted name joins the set |
| P5NameFacts.FormalAccepted | p5/ast.java:619-659 | a formal is declared iff it is not void and its name is not local, and then its name becomes a key of the innermost scope; otherwise the scopes are unchanged |
| P5NameFacts.FormalsInNewScope | p5/ast.java:565-567 | in the function's new scope, the formals give exactly the accepted types |
| P5NameFacts.FctnParamTypes | p5/ast.java:533-583 | a non-duplicate function is bound in the enclosing scope to a new function symbol whose parameter types are the accepted formals' types; the depth is unchanged |
| P5NameFacts.FctnDuplicateReported | p5/ast.java:537-541 | a duplicate function name is reported first, binds nothing and attaches types to no existing symbol |
| P5NameFacts.TupleNameAfterFields | p5/ast.java:693-730 | fields are analysed in a fresh one-scope table; the tuple name is then bound after every field symbol, to a definition holding that field table, unless it was a local duplicate, which is reported |
| P5NameFacts.FieldMayReuseOuterName | p5/ast.java:700-706 | a field may share a name with an enclosing variable without a report |
| P5NameFacts.ElseArmDoesNotSeeThenArm | p5/ast.java:1051-1073 | a name that is unbound outside is undeclared in the `else` arm, whatever the `then` arm declared |
| P5NameFacts.NewScopeReady | p5/ast.java:1053 | a pushed empty scope over valid scopes is valid |
| P5NameFacts.WriteUndeclared | p5/ast.java:1254-1256 | writing an unbound name reports it undeclared |
| P5TypeChecker.IntOperand | p5/ast.java:1935-1972 | an arithmetic operand is accepted iff it is an integer literal, an integer identifier, or a call whose callee symbol has integer type; otherwise one report at the operand |
| P5TypeChecker.LogicalOperand | p5/ast.java:2489-2514 | a logical operand is accepted iff it is a logical identifier, so `true` and `false` are rejected; otherwise one report at it |
| P5TypeChecker.OperandType | p5/ast.java:2147-2196 | the operand kinds that have a type for `==`; a call gives its return type |
| P5TypeChecker.Equality | p5/ast.java:2147-2196 | at most one report, at the left operand; a type mismatch gives exactly "Mismatched type"; no report iff the types agree and are integer, logical or string |
| P5TypeChecker.BinaryCheck | p5/ast.java:1935-2555 | at most two reports, and every report carries the message of its operator's class |
| P5TypeChecker.NotOperand | p5/ast.java:1900-1905 | `!x` is accepted iff `x` is logical; otherwise one report at `x` |
| P5TypeChecker.AssignCheck | p5/ast.java:1712-1764 | a binary right-hand side is checked alone; otherwise at most one report, at the target, and a mismatch gives exactly "Mismatched type" |
| P5TypeChecker.Then | p5/ast.java:208-216 | running two checks in sequence: the first's reports come first, and an abort in the first skips the second; the result aborts iff either part does |
| P5TypeChecker.Args | p5/ast.java:252-269 | at most one report per argument position, each "Actual type does not match formal type"; the check aborts (the `get(i)` index failure) iff there are more arguments than parameter types |
| P5TypeChecker.CallCheck | p5/ast.java:1813-1824 | a non-function gives only "Call attempt on non-function"; a wrong count gives only the arity error; otherwise only argument mismatches, and the call aborts iff the function declares more parameters than it has parameter types |
| P5TypeChecker.WriteCall | p5/ast.java:1806-1811 | writing a call reports "Write attempt of void" iff the function returns void |
| P5TypeChecker.Guard | p5/ast.java:942-964 | an arithmetic or non-operator guard gives exactly the non-logical report |
| P5TypeChecker.NameUse | p5/ast.java:1185-1198 | at most one report, none iff the name is not a function, tuple variable or tuple name |
| P5TypeChecker.Return | p5/ast.java:1332-1359 | in a void function a value is reported; otherwise a missing value is reported at (0,0) and a value is reported iff its type differs from the return type |
| P5TypeChecker.StmtDiags | p5/ast.java:876-1359 | every statement other than a call: the per-kind checks, which never abort |
| P5TypeChecker.StmtCheck | p5/ast.java:1813-1824 | only a call statement can abort |
| P5TypeChecker.StmtsCheck | p5/ast.java:208-216 | no contract of its own; `P5TypeCheckerFacts.StmtsCheckAppend`, `AbortsIffSomeStmtAborts` and `AbortStopsChecking` state its order and its abort |
| P5TypeChecker.FctnReturn | p5/ast.java:512-517 | the return type a function body sees: present iff the function's name is linked to a function symbol, and then that symbol's return type |
| P5TypeChecker.DeclCheck | p5/ast.java:496-514 | only function declarations check anything |
| P5TypeChecker.DeclsCheck | p5/ast.java:157-161 | no contract of its own; `P5TypeCheckerFacts.DeclsCheckAppend` and `OnlyFunctionsChecked` state what it reports |
| P5TypeChecker.ProgramCheck | p5/ast.java:130-132 | no contract of its own; it is `DeclsCheck` of the program's declarations |
| P5TypeCheckerFacts.EqualityCategories | p5/ast.java:2178-2195 | with agreeing types each forbidden category is reported on its own and no mismatch is |
| P5TypeCheckerFacts.AssignCategories | p5/ast.java:1747-1762 | the same for assignment's categories |
| P5TypeCheckerFacts.AssignBinaryIgnoresTarget | p5/ast.java:1713-1714 | with a binary right-hand side, the target plays no part |
| P5TypeCheckerFacts.ArgsReportEveryMismatch | p5/ast.java:252-269 | a report is present iff some argument position that has a parameter type differs from it, with no short-circuit |
| P5TypeCheckerFacts.CallAbortsIff | p5/ast.java:252-269 | a correct-arity call aborts iff its arguments outnumber the callee's parameter types |
| P5TypeCheckerFacts.CallChecksArguments | p5/ast.java:1813-1824 | a correct-arity call reports exactly the argument mismatches |
| P5TypeCheckerFacts.LogicalLiteralsRejected | p5/ast.java:2490-2502 | `true & x` and `false \| x` report the literal as non-logical |
| P5TypeCheckerFacts.CallOperandRejected | p5/ast.java:1944 | a call returning integer is still rejected by `+` and `<` |
| P5TypeCheckerFacts.GuardOnly | p5/ast.java:1016-1038 | `if`, `if`/`else` and `while` checks depend on the guard only |
| P5TypeCheckerFacts.ThenAssoc | p5/ast.java:208-216 | sequencing checks is associative |
| P5TypeCheckerFacts.StmtsCheckAppend | p5/ast.java:208-216 | checking two statement lists one after the other is checking their concatenation |
| P5TypeCheckerFacts.AbortsIffSomeStmtAborts | p5/ast.java:208-216 | a statement list aborts iff one of its statements aborts |
| P5TypeCheckerFacts.AbortStopsChecking | p5/ast.java:208-216 | once a statement aborts, the list's reports are those before it plus its own, and no later statement is checked |
| P5TypeCheckerFacts.ReturnTypeOnlyForReturns | p5/ast.java:1332-1359 | a statement list without a `return` checks the same whatever the function's return type, including none |
| P5TypeCheckerFacts.IncDecNeedInteger | p5/ast.java:876-883 | `++` and `--` report one non-integer error at the operand iff it is a non-integer identifier |
| P5TypeCheckerFacts.ReadWriteTargets | p5/ast.java:1233-1248 | reading or writing a function, a tuple variable or a tuple name reports that kind; other identifiers are accepted |
| P5TypeCheckerFacts.OnlyFunctionsChecked | p5/ast.java:157-161 | declarations without functions report nothing |
| P5TypeCheckerFacts.DeclsCheckAppend | p5/ast.java:157-161 | checking two declaration lists one after the other is checking their concatenation |
| P4NameSpec.TypeName | p4/ast.java:430-476 | each type node names one of "logical", "integer", "void", "tuple", and "void" exactly for `void` |
| P4NameSpec.Declare | p4/ast.java:818-854 | a name is bound iff it is absent from the innermost scope; a void non-function is reported and bound all the same; a duplicate is reported |
| P4NameSpec.Use | p4/ast.java:856-872 | a use only ever adds one "Undeclared identifier", exactly when no scope binds the name, and never links |
| P4NameSpec.AssignSpec | p4/ast.java:960-964 | only an identifier target is analysed |
| P4NameSpec.Throws | p4/ast.java:939-1026 | no contract of its own: a tuple access or call reached through unary or binary operators only; `ExpSpec` and `P4NameFacts.UnsupportedConstructs` state its meaning |
| P4NameSpec.ExpSpec | p4/ast.java:939-1026 | an expression faults iff a tuple access or call is reached through unary or binary operators (`Throws`), the fault is Unsupported, and the symbols recorded are unchanged |
| P4NameSpec.FormalsSpec | p4/ast.java:242-252 | formals change only the innermost scope, diagnostics and recorded symbols only grow, and every formal's identifier gets a recorded symbol |
| P4NameSpec.Pop | p4/ast.java:346-350 | removing a scope drops the front one, and a caught empty-table exception changes nothing |
| P4NameSpec.DeclSpec | p4/ast.java:302-306 | a variable declaration never faults; diagnostics and recorded symbols only grow |
| P4NameSpec.DeclsSpec | p4/ast.java:160-171 | diagnostics and recorded symbols only grow; depth is stated by `P4NameFacts.DeclsDepth` |
| P4NameSpec.FctnDeclSpec | p4/ast.java:339-351 | diagnostics and recorded symbols only grow; depth by `P4NameFacts.FctnDeclDepth` |
| P4NameSpec.BodySpec | p4/ast.java:269-272 | the same; depth by `P4NameFacts.BodyDepth` |
| P4NameSpec.TupleDeclSpec | p4/ast.java:400-406 | the same; depth by `P4NameFacts.DeclDepth` |
| P4NameSpec.StmtsSpec | p4/ast.java:190-200 | the same; depth by `P4NameFacts.StmtsDepth` |
| P4NameSpec.ArmSpec | p4/ast.java:575-583 | the same; depth by `P4NameFacts.ArmDepth` |
| P4NameSpec.ArmBody | p4/ast.java:578-579 | the same; depth by `P4NameFacts.ArmBodyDepth` |
| P4NameSpec.StmtSpec | p4/ast.java:615-629 | the same; depth by `P4NameFacts.StmtDepth` |
| P4NameSpec.ProgramSpec | p4/ast.java:133-136 | diagnostics and recorded symbols only grow |
| P4NameSpec.ExpStmt | p4/ast.java:505-507 | a statement around one expression keeps the scopes and faults iff the expression does |
| P4NameAnalysis.Analyzer.constructor | p4/ast.java:133-136 | the analysis starts with no links and no diagnostics |
| P4NameAnalysis.Analyzer.Fatal | p4/ast.java:846-849 | a report appends exactly one diagnostic at the given position and changes nothing else |
| P4NameAnalysis.Analyzer.Declare | p4/ast.java:818-854 | computes `P4NameSpec.Declare` with `lookupLocal` and `addDecl` |
| P4NameAnalysis.Analyzer.Use | p4/ast.java:856-872 | computes `P4NameSpec.Use` |
| P4NameAnalysis.Analyzer.Exp | p4/ast.java:1023-1026 | computes `P4NameSpec.ExpSpec` |
| P4NameAnalysis.Analyzer.Assign | p4/ast.java:960-964 | computes `P4NameSpec.AssignSpec` |
| P4NameAnalysis.Analyzer.DeclList | p4/ast.java:160-171 | the loop stops at the first fault and computes `P4NameSpec.DeclsSpec` |
| P4NameAnalysis.Analyzer.Decl | p4/ast.java:302-306 | computes `P4NameSpec.DeclSpec` |
| P4NameAnalysis.Analyzer.FctnDecl | p4/ast.java:339-351 | computes `P4NameSpec.FctnDeclSpec` in place |
| P4NameAnalysis.Analyzer.Formals | p4/ast.java:242-252 | the loop computes `P4NameSpec.FormalsSpec` |
| P4NameAnalysis.Analyzer.Body | p4/ast.java:269-272 | computes `P4NameSpec.BodySpec` |
| P4NameAnalysis.Analyzer.TupleDecl | p4/ast.java:400-406 | computes `P4NameSpec.TupleDeclSpec` |
| P4NameAnalysis.Analyzer.StmtList | p4/ast.java:190-200 | the loop stops at the first fault and computes `P4NameSpec.StmtsSpec` |
| P4NameAnalysis.Analyzer.Arm | p4/ast.java:575-583 | computes `P4NameSpec.ArmSpec`: push, guard, body, pop |
| P4NameAnalysis.Analyzer.ArmBody | p4/ast.java:578-579 | computes `P4NameSpec.ArmBody` |
| P4NameAnalysis.Analyzer.Stmt | p4/ast.java:615-629 | computes `P4NameSpec.StmtSpec` |
| P4NameAnalysis.Analyzer.Program | p4/ast.java:133-136 | computes `P4NameSpec.ProgramSpec` |
| P4NameFacts.DeclsDepth | p4/ast.java:160-171 | declarations that do not fault grow the stack by one scope per tuple they contain, and leave the scopes below the innermost alone |
| P4NameFacts.DeclDepth | p4/ast.java:302-406 | the same for one declaration |
| P4NameFacts.FctnDeclDepth | p4/ast.java:339-351 | a function adds to the stack only what its body's tuples leave open |
| P4NameFacts.BodyDepth | p4/ast.java:269-272 | the same for a body |
| P4NameFacts.StmtsDepth | p4/ast.java:190-200 | statements leave the stack they started with underneath whatever tuple scopes their blocks leave open |
| P4NameFacts.StmtDepth | p4/ast.java:615-629 | the same for one statement |
| P4NameFacts.ArmDepth | p4/ast.java:575-583 | the same for one block of an `if`, `if`/`else` or `while` |
| P4NameFacts.ArmBodyDepth | p4/ast.java:578-579 | the same for a block's declarations and statements |
| P4NameFacts.DeclareBindsIffAbsent | p4/ast.java:818-854 | a declaration binds the name iff it was absent locally, keeps an existing binding, and changes no other name's lookup |
| P4NameFacts.VoidVariableStillDeclared | p4/ast.java:302-306 | a void variable is reported and still bound |
| P4NameFacts.FctnNameDoesNotSurvive | p4/ast.java:339-351 | the function's name is gone once its declaration is analysed, and the depth is unchanged |
| P4NameFacts.TupleScopeStaysOpen | p4/ast.java:400-406 | example of `DeclDepth`: a tuple leaves its scope open, depth plus one, and the next sibling lands in it |
| P4NameFacts.GuardSeesOpenedScope | p4/ast.java:575-583 | example of `ArmDepth` on an empty table: the `if` scope is pushed before the guard is analysed, so the guard's use succeeds in finding a table and reports the name undeclared |
| P4NameFacts.ElseArmDoesNotSeeThenArm | p4/ast.java:615-629 | example of `ArmDepth`: the `else` arm does not see a declaration of the `then` arm |
| P4NameFacts.AssignAnalysesTargetOnly | p4/ast.java:960-964 | read directly off the definitions: the right-hand side of an assignment is never analysed, not even a call |
| P4NameFacts.UnsupportedConstructs | p4/ast.java:997-1001 | read directly off the definitions: tuple accesses and calls fault as unsupported; a `return` without a value faults on null |

## Left out

- `print` of the symbol table, every `unparse` and `doIndent`, and the P1 test driver as code. These only print. The driver's assertions appear as module-level scenario methods of `SymTables`.
- `System.exit(-1)` after an unexpected exception or node kind. The tree types make the unexpected node kind impossible. The scope stack is never empty where the fifth exercise would exit, so those branches are unreachable under `Ready`.
- The type checker's null and cast failures become preconditions. These cover a missing `sym()` link (`Linked`, `AccessLinked`), the `IdNode` cast of `!` (`NotOperand`), a null `mySym` on a function declaration where a `return` is checked (`DeclOk`, through `StmtOk`) and operand kinds with no type (`OperandOk`, `TypedPair`, `ArgOk`, `ReturnValueOk`).
- `Type.equals`, `FctnSym.getType`, `TupleSym.getType` and `TupleDefSym.getType` are not part of this model. `P5Symbols.SymType` assumes a tuple variable's type is the tuple type of its tuple's name and a tuple definition's type is the tuple-definition type. Type equality is datatype equality. A function symbol's type is the function type, so a call's callee counts as a function-typed operand.
- Source line and column are opaque integers. `VarDeclNode.mySize` is kept in the tree but never used.
- `mySymTable` fields of the fourth exercise are never read there. They are not modelled.
- A tuple definition's field table is stored as the value of its scopes, not as a shared table object.
- The p4 and p5 `SymTable` classes are not part of this model. Both passes use the p1 `SymTable` class.
- An exception that ends the fourth exercise's pass is a returned `Fault`. Every caller returns it at once, instead of unwinding the Java stack.
- P5NameSpec.StmtSpec: the pure function returns only the new state. Scope balance for statements is stated on `P5NameAnalysis.Resolver.Stmt`, whose table is proved unchanged.
