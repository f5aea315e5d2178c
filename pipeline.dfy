/** What the three stages guarantee together: the tokenizer never produces a
    boolean token, the parser therefore never builds a `bool` declaration or a
    boolean literal, and so running a parsed program never creates a `bool`
    variable. */
module Pipeline {
  import opened Wrappers
  import opened LexerSpec
  import opened Ast
  import opened Grammar
  import opened Semantics

  /** No variable of the table has type `bool`. */
  predicate NoBools(t: Table)
  {
    forall k :: 0 <= k < |t| ==> !t[k].value.BoolVal?
  }

  /** Storing an int or a string keeps a table free of `bool` variables. */
  lemma SetVarKeepsNoBools(t: Table, name: string, v: Value)
    requires NoBools(t) && !v.BoolVal?
    ensures NoBools(SetVar(t, name, v))
  {
    SetVarEffect(t, name, v);
  }

  /** A statement of the shape the parser builds keeps a table free of `bool`
      variables: it declares an `int` or a `string`, prints, or assigns under
      the target's existing (int or string) type. */
  lemma StepKeepsNoBools(s: State, n: Node)
    requires StatementShape(n) && StepDefined(s, n) && NoBools(s.vars)
    ensures NoBools(Step(s, n).vars)
  {
    match n.kind
    case VarDeclaration =>
      var typ, name := n.varType.value, n.varName.value;
      if typ == "int" {
        SetVarKeepsNoBools(s.vars, name, IntVal(if n.left.Some? then EvalInt(s.vars, n.left) else 0));
      } else {
        SetVarKeepsNoBools(s.vars, name, StrVal(if n.left.Some? then EvalString(s.vars, n.left.value) else ""));
      }
    case Assignment =>
      var name := n.varName.value;
      match Find(s.vars, name) {
        case None =>
        case Some(k) =>
          assert !s.vars[k].value.BoolVal?;
          if s.vars[k].value.IntVal? {
            SetVarKeepsNoBools(s.vars, name, IntVal(EvalInt(s.vars, n.left)));
          } else {
            SetVarKeepsNoBools(s.vars, name, StrVal(EvalString(s.vars, n.left.value)));
          }
      }
    case Print =>
  }

  /** Running statements of the parser's shapes keeps a table free of `bool`
      variables. */
  lemma {:induction false} RunKeepsNoBools(s: State, chain: Chain)
    requires RunDefined(s, chain) && NoBools(s.vars)
    requires forall k :: 0 <= k < |chain| ==> StatementShape(chain[k])
    ensures NoBools(Run(s, chain).vars)
    decreases |chain|
  {
    if |chain| > 0 {
      StepKeepsNoBools(s, chain[0]);
      RunKeepsNoBools(Step(s, chain[0]), chain[1..]);
    }
  }

  /** End to end: the program the parser builds from what the tokenizer
      delivers for a source text, run from the empty table, never creates a
      `bool` variable, whatever the text says. */
  lemma ParsedProgramHasNoBools(input: string, out: seq<string>)
    requires StreamDefined(input, 0)
    requires (DeliveredStreamIsWellformed(input); RunDefined(State([], out), ParseProgram(TokensFrom(input, 0), 0)))
    ensures NoBools(Run(State([], out), ParseProgram(TokensFrom(input, 0), 0)).vars)
  {
    var ts := TokensFrom(input, 0);
    DeliveredStreamIsWellformed(input);
    ProgramShape(ts, 0);
    RunKeepsNoBools(State([], out), ParseProgram(ts, 0));
  }

  /** The tokens the tokenizer delivers always form a well-formed stream, the
      one the parse functions are defined on. */
  lemma DeliveredStreamIsWellformed(input: string)
    requires StreamDefined(input, 0)
    ensures Wellformed(TokensFrom(input, 0))
  {
    TracksFirst(input, 0);
  }

  /** With the intended parse, `x = e;` for an `int` variable `x` is a
      statement the interpreter runs, and afterwards `x` holds the value of
      `e`. */
  lemma IntendedAssignmentStores(ts: seq<Token>, i: nat, name: string, s: State)
    requires Wellformed(ts) && i + 2 < |ts|
    requires ts[i] == Token(Identifier, Some(name)) && ts[i + 1].kind == Assign
    requires PExpression(ts, i + 2).node.Some? && ts[PExpression(ts, i + 2).next].kind == Semicolon
    requires TableInv(s.vars) && Lookup(s.vars, name).Some? && Lookup(s.vars, name).value.IntVal?
    requires IntDefined(s.vars, PExpression(ts, i + 2).node)
    ensures var n := Terminate(ts, PAssignmentIntended(ts, i)).node;
      && n.Some? && StepDefined(s, n.value)
      && Lookup(Step(s, n.value).vars, name) == Some(IntVal(EvalInt(s.vars, PExpression(ts, i + 2).node)))
  {
    var e := PExpression(ts, i + 2).node;
    IntendedAssignmentOfOneExpression(ts, i);
    LookupAfterSet(s.vars, name, IntVal(EvalInt(s.vars, e)), name);
  }
}
