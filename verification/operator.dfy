/** The `Operator` enum of `Operator.java` and its `toString`. */
module Operators {

  datatype Operator = Add | Subtract | Multiply | Divide

  /** What `toString` returns when none of the four constants matches. */
  const Unknown: string := "unknown"

  /**
   * `Operator.toString`: a chain of tests against the four constants with a fallback.
   * Every constant has a three-character symbol padded by one space on each side,
   * and the fallback is never reached.
   */
  function Symbol(op: Operator): (s: string)
    ensures s != Unknown
    ensures |s| == 3 && s[0] == ' ' && s[2] == ' '
  {
    if op.Add? then " + "
    else if op.Subtract? then " - "
    else if op.Multiply? then " * "
    else if op.Divide? then " / "
    else Unknown
  }

  /** The character in the middle of the symbol, read back as an operator. */
  function FromSymbol(s: string): (r: Parsed)
  {
    if |s| != 3 || s[0] != ' ' || s[2] != ' ' then NotAnOperator
    else if s[1] == '+' then Parsed(Add)
    else if s[1] == '-' then Parsed(Subtract)
    else if s[1] == '*' then Parsed(Multiply)
    else if s[1] == '/' then Parsed(Divide)
    else NotAnOperator
  }

  datatype Parsed = NotAnOperator | Parsed(op: Operator)

  /** The symbol determines the operator: reading it back gives the operator again. */
  lemma SymbolRoundTrip(op: Operator)
    ensures FromSymbol(Symbol(op)) == Parsed(op)
  {
  }

  /** The four symbols are pairwise distinct. */
  lemma SymbolsDistinct(a: Operator, b: Operator)
    ensures Symbol(a) == Symbol(b) ==> a == b
  {
    SymbolRoundTrip(a);
    SymbolRoundTrip(b);
  }
}
