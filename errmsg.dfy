/**
 * The diagnostic sink both analysis passes report to. `ErrMsg.fatal(line, col, msg)`
 * is modelled as appending one `Diag` to a sequence; the pass goes on afterwards.
 */
module ErrMsg {
  datatype Diag = Diag(line: int, col: int, msg: string)

  /** Messages of the name-analysis passes. */
  const NonFctnVoid := "Non-function declared void"
  const MultiplyDeclared := "Multiply-declared identifier"
  const Undeclared := "Undeclared identifier"
  const BadTupleTypeName := "Invalid name of tuple type"
  const NonTupleAccess := "Colon-access of non-tuple type"
  const BadFieldName := "Invalid tuple field name"

  /** Messages of the type checker. */
  const ArithNonInt := "Arithmetic operator used with non-integer operand"
  const RelNonInt := "Relational operator used with non-integer operand"
  const LogicalNonBool := "Logical operator used with non-logical operand"
  const Mismatch := "Mismatched type"
  const EqFctn := "Equality operator used with function names"
  const EqVoid := "Equality operator used with void function calls"
  const EqTupleVar := "Equality operator used with tuple variables"
  const EqTupleName := "Equality operator used with tuple names"
  const AssignFctn := "Assignment to function name"
  const AssignTupleVar := "Assignment to tuple variable"
  const AssignTupleName := "Assignment to tuple name"
  const CallNonFctn := "Call attempt on non-function"
  const WrongArgCount := "Function call with wrong # of args"
  const ArgMismatch := "Actual type does not match formal type"
  const ReadFctn := "Read attempt of function name"
  const ReadTupleVar := "Read attempt of tuple variable"
  const ReadTupleName := "Read attempt of tuple name"
  const WriteFctn := "Write attempt of function name"
  const WriteTupleVar := "Write attempt of tuple variable"
  const WriteTupleName := "Write attempt of tuple name"
  const WriteVoid := "Write attempt of void"
  const IfNonBool := "Non-logical expression used in if condition"
  const WhileNonBool := "Non-logical expression used in while condition"
  const ReturnInVoid := "Return with value in void function"
  const ReturnMissing := "Return value missing"
  const ReturnWrongType := "Return value wrong type"

}
