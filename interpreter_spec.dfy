/** The evaluator of interpreter.c as pure functions. The variable table is the
    sequence of the first `variable_count` entries of the static array; running
    a statement maps the table and the lines printed so far to new ones. C's
    undefined behaviour (int overflow, a NULL string where one is compared or
    copied, a NULL pointer dereferenced) is excluded by the `...Defined`
    predicates instead of being given a meaning. */
module Semantics {
  import opened Wrappers
  import opened CInt
  import opened Ast

  /** The capacity of the table. */
  const MAX_VARIABLES: nat := 100

  /** The runtime type tags of a variable. */
  datatype VarType = IntType | StringType | BoolType

  /** A variable's value; its constructor is the variable's type tag. */
  datatype Value = IntVal(i: int) | StrVal(s: string) | BoolVal(b: bool)

  function TypeOf(v: Value): VarType
  {
    match v
    case IntVal(_) => IntType
    case StrVal(_) => StringType
    case BoolVal(_) => BoolType
  }

  /** A table entry: a name and a typed value. */
  datatype Variable = Variable(name: string, value: Value)

  type Table = seq<Variable>

  /** An `int` value is a C int. */
  predicate Fits(v: Value)
  {
    v.IntVal? ==> InInt(v.i)
  }

  predicate IntsFit(t: Table)
  {
    forall k :: 0 <= k < |t| ==> Fits(t[k].value)
  }

  /** The names of the table are pairwise distinct. */
  predicate UniqueNames(t: Table)
  {
    forall j, k :: 0 <= j < k < |t| ==> t[j].name != t[k].name
  }

  /** What holds of every table `set_variable` builds from the empty one. */
  predicate TableInv(t: Table)
  {
    |t| <= MAX_VARIABLES && UniqueNames(t) && IntsFit(t)
  }

  // ----- get_variable and set_variable -----

  /** `get_variable`: the index of the first entry named `name`, if any. */
  function Find(t: Table, name: string): (r: Option<nat>)
    ensures r.Some? ==> r.value < |t| && t[r.value].name == name
    ensures r.Some? ==> forall k :: 0 <= k < r.value ==> t[k].name != name
    ensures r.None? ==> forall k :: 0 <= k < |t| ==> t[k].name != name
  {
    if |t| == 0 then None
    else if t[0].name == name then Some(0)
    else match Find(t[1..], name)
      case None => None
      case Some(k) => Some(k + 1)
  }

  /** The value of the variable `get_variable` finds. */
  function Lookup(t: Table, name: string): Option<Value>
  {
    match Find(t, name)
    case None => None
    case Some(k) => Some(t[k].value)
  }

  /** The value the insert path of `set_variable` leaves in a new entry: it
      copies ints and strings only, and the static table's storage starts
      zeroed, so a new `bool` reads `false`. */
  function Inserted(v: Value): (r: Value)
    ensures TypeOf(r) == TypeOf(v)
    ensures r == if v.BoolVal? then BoolVal(false) else v
  {
    if v.BoolVal? then BoolVal(false) else v
  }

  /** A call of `set_variable` whose behaviour C defines: an int value is a C
      int, and a string may only be stored over an existing string entry
      (over any other entry the old union member is freed as a pointer). */
  predicate SetDefined(t: Table, name: string, v: Value)
  {
    && Fits(v)
    && (v.StrVal? && Lookup(t, name).Some? ==> Lookup(t, name).value.StrVal?)
  }

  /** `set_variable`: an existing entry takes the new type and value in place;
      otherwise, below capacity, a new entry is appended; at capacity nothing
      changes. */
  function SetVar(t: Table, name: string, v: Value): (r: Table)
  {
    match Find(t, name)
    case Some(k) => t[k := Variable(name, v)]
    case None => if |t| < MAX_VARIABLES then t + [Variable(name, Inserted(v))] else t
  }

  /** `set_variable` keeps the table invariant. */
  lemma SetVarKeepsInvariant(t: Table, name: string, v: Value)
    requires TableInv(t) && Fits(v)
    ensures TableInv(SetVar(t, name, v))
  {
    var r := SetVar(t, name, v);
    if Find(t, name).None? && |t| < MAX_VARIABLES {
      assert forall k :: 0 <= k < |t| ==> r[k] == t[k];
    }
  }

  /** What `set_variable` does to the table: the entry of an existing name is
      overwritten where it stands; a new name is appended while there is room;
      every other entry is left as it was. */
  lemma SetVarEffect(t: Table, name: string, v: Value)
    ensures var r := SetVar(t, name, v);
      match Find(t, name)
      case Some(k) => |r| == |t| && r[k] == Variable(name, v) && forall j :: 0 <= j < |t| && j != k ==> r[j] == t[j]
      case None =>
        if |t| < MAX_VARIABLES then r == t + [Variable(name, Inserted(v))]
        else r == t
  {
  }

  /** Reading a variable after `set_variable`: the name set reads the new
      value (for a newly inserted `bool`, `false`), unless the table was full;
      every other name reads what it read before. */
  lemma {:induction false} LookupAfterSet(t: Table, name: string, v: Value, other: string)
    ensures Lookup(SetVar(t, name, v), other) ==
      if other != name then Lookup(t, other)
      else if Find(t, name).Some? then Some(v)
      else if |t| < MAX_VARIABLES then Some(Inserted(v))
      else None
  {
    var r := SetVar(t, name, v);
    match Find(t, name)
    case Some(k) =>
      FindAfterUpdate(t, k, Variable(name, v), other);
    case None =>
      if |t| < MAX_VARIABLES {
        FindAfterAppend(t, Variable(name, Inserted(v)), other);
      }
  }

  /** Overwriting an entry without renaming it moves no name. */
  lemma FindAfterUpdate(t: Table, k: nat, e: Variable, name: string)
    requires k < |t| && t[k].name == e.name
    ensures Find(t[k := e], name) == Find(t, name)
  {
    var u := t[k := e];
    assert forall j :: 0 <= j < |t| ==> u[j].name == t[j].name;
    match Find(t, name)
    case None =>
    case Some(i) =>
  }

  /** Appending an entry changes only what its own name finds, and only if
      that name was absent. */
  lemma {:induction false} FindAfterAppend(t: Table, e: Variable, name: string)
    ensures Find(t + [e], name) ==
      if Find(t, name).Some? then Find(t, name)
      else if e.name == name then Some(|t|)
      else None
    decreases |t|
  {
    if |t| > 0 {
      assert (t + [e])[0] == t[0] && (t + [e])[1..] == t[1..] + [e];
      if t[0].name != name {
        FindAfterAppend(t[1..], e, name);
      }
    }
  }

  /** In a table of distinct names, `get_variable` finds the one entry with
      that name wherever it stands. */
  lemma FindUnique(t: Table, name: string, k: nat)
    requires UniqueNames(t) && k < |t| && t[k].name == name
    ensures Find(t, name) == Some(k)
  {
  }

  // ----- evaluate_expression -----

  /** `strtobool`: exactly the texts "true" and "1" are true. */
  function StrToBool(s: string): (b: bool)
  {
    s == "true" || s == "1"
  }

  /** The operand pairs on which an operator of `evaluate_expression` is
      defined in C: no overflow, no `INT_MIN / -1` or `INT_MIN % -1`, no
      `pow(0, negative)` converted to int. Division and remainder by zero are
      caught by the source itself. */
  predicate OpDefined(op: string, l: int, r: int)
  {
    if op == "+" then InInt(l + r)
    else if op == "-" then InInt(l - r)
    else if op == "*" then InInt(l * r)
    else if op == "/" || op == "%" then !(l == INT_MIN && r == -1)
    else if op == "**" then PowDefined(l, r) && InInt(CPow(l, r))
    else true
  }

  /** The arithmetic of a BINARY_OP node, in the order `evaluate_expression`
      tests the operator: C's truncating `/` and `%` with 0 for a zero
      divisor, `(int)pow` for `**`, and 0 for any other operator text. */
  function ApplyOp(op: string, l: int, r: int): (v: int)
    requires InInt(l) && InInt(r) && OpDefined(op, l, r)
    ensures InInt(v)
  {
    if op == "+" then l + r
    else if op == "-" then l - r
    else if op == "*" then l * r
    else if op == "/" then
      if r == 0 then 0 else QuotientInRange(l, r); CDiv(l, r)
    else if op == "**" then CPow(l, r)
    else if op == "%" then
      if r == 0 then 0 else RemainderBounds(l, r); CRem(l, r)
    else 0
  }

  /** The evaluations `evaluate_expression` performs without undefined
      behaviour: literal and variable texts are present, a number's value
      fits, and every operator is applied to operands it is defined on. */
  predicate IntDefined(t: Table, n: Option<Node>)
    requires IntsFit(t)
    decreases n, 1
  {
    n.None? ||
    var m := n.value;
    match m.kind
    case IntLiteral => m.value.Some? && InInt(Atoi(m.value.value))
    case Literal => m.value.Some?
    case BoolLiteral => m.value.Some?
    case BinaryOp =>
      && IntDefined(t, m.left) && IntDefined(t, m.right) && m.value.Some?
      && OpDefined(m.value.value, EvalInt(t, m.left), EvalInt(t, m.right))
    case _ => true
  }

  /** `evaluate_expression`: 0 for a null node, `atoi` of a number, the value
      of an int variable (0 for any other variable), 1 or 0 for a boolean
      literal, the operator applied to both operands for BINARY_OP, and 0 for
      any other node. The result is always a C int. */
  function EvalInt(t: Table, n: Option<Node>): (v: int)
    requires IntsFit(t) && IntDefined(t, n)
    ensures InInt(v)
    decreases n, 2
  {
    if n.None? then 0
    else
      var m := n.value;
      match m.kind
      case IntLiteral => Atoi(m.value.value)
      case Literal => IntOf(t, m.value.value)
      case BoolLiteral => if StrToBool(m.value.value) then 1 else 0
      case BinaryOp => ApplyOp(m.value.value, EvalInt(t, m.left), EvalInt(t, m.right))
      case _ => 0
  }

  /** An int variable's value, 0 for an undefined or non-int one. */
  function IntOf(t: Table, name: string): (v: int)
    requires IntsFit(t)
    ensures InInt(v)
  {
    match Find(t, name)
    case Some(k) => if t[k].value.IntVal? then t[k].value.i else 0
    case None => 0
  }

  /** `evaluate_expression` on a binary node: both operands are evaluated, and
      a zero divisor gives 0 for `/` and `%`; otherwise the C quotient and
      remainder satisfy `(l / r) * r + l % r == l` with a remainder smaller
      than the divisor and of the dividend's sign. */
  lemma DivisionSemantics(l: int, r: int)
    requires InInt(l) && InInt(r) && !(l == INT_MIN && r == -1)
    ensures r == 0 ==> ApplyOp("/", l, r) == 0 && ApplyOp("%", l, r) == 0
    ensures r != 0 ==> ApplyOp("/", l, r) * r + ApplyOp("%", l, r) == l
    ensures r != 0 ==> Abs(ApplyOp("%", l, r)) < Abs(r)
    ensures r != 0 ==> ApplyOp("%", l, r) == 0 || (ApplyOp("%", l, r) < 0 <==> l < 0)
  {
    if r != 0 {
      DivisionIdentity(l, r);
      RemainderBounds(l, r);
    }
  }

  /** The tree the power loop builds for `a ** b ** c` (Grammar.PowerGroupsLeft)
      is `(a ** b) ** c`; with non-negative exponents it evaluates to
      `a ** (b * c)`, not to `a ** (b ** c)`. */
  lemma PowerChainValue(t: Table, a: Node, b: Node, c: Node)
    requires IntsFit(t) && IntDefined(t, Some(a)) && IntDefined(t, Some(b)) && IntDefined(t, Some(c))
    requires IntDefined(t, Some(CreateNode(BinaryOp, Some(CreateNode(BinaryOp, Some(a), Some(b), Some("**"))), Some(c), Some("**"))))
    ensures var x, y, z := EvalInt(t, Some(a)), EvalInt(t, Some(b)), EvalInt(t, Some(c));
      y >= 0 && z >= 0 ==>
        EvalInt(t, Some(CreateNode(BinaryOp, Some(CreateNode(BinaryOp, Some(a), Some(b), Some("**"))), Some(c), Some("**"))))
          == Pow(x, y * z)
  {
    var x, y, z := EvalInt(t, Some(a)), EvalInt(t, Some(b)), EvalInt(t, Some(c));
    if y >= 0 && z >= 0 {
      PowPow(x, y, z);
    }
  }

  // ----- evaluate_bool_expression and evaluate_string_expression -----

  /** The texts `evaluate_bool_expression` compares or looks up are present. */
  predicate BoolDefined(n: Node)
  {
    (n.kind == BoolLiteral || n.kind == Literal) ==> n.value.Some?
  }

  /** `evaluate_bool_expression`. */
  function EvalBool(t: Table, n: Node): (b: bool)
    requires BoolDefined(n)
  {
    match n.kind
    case BoolLiteral => StrToBool(n.value.value)
    case Literal => Lookup(t, n.value.value) == Some(BoolVal(true))
    case _ => false
  }

  /** The texts `evaluate_string_expression` copies or looks up are present. */
  predicate StringDefined(n: Node)
  {
    (n.kind == StringLiteral || n.kind == Literal) ==> n.value.Some?
  }

  /** `evaluate_string_expression`. */
  function EvalString(t: Table, n: Node): (s: string)
    requires StringDefined(n)
  {
    match n.kind
    case StringLiteral => n.value.value
    case Literal => (match Lookup(t, n.value.value) case Some(StrVal(s)) => s case _ => "")
    case _ => ""
  }

  /** Storing a value with `set_variable` and reading the variable back through
      a variable reference (the node the parser builds for an identifier): an
      int or a string reads back as stored; a `bool` reads back as stored only
      over an existing entry, since a newly inserted one reads `false`. */
  lemma StoreThenRead(t: Table, x: string, v: Value)
    requires TableInv(t) && SetDefined(t, x, v)
    requires Find(t, x).Some? || |t| < MAX_VARIABLES
    ensures var u, n := SetVar(t, x, v), CreateNode(Literal, None, None, Some(x));
      && IntsFit(u)
      && (v.IntVal? ==> EvalInt(u, Some(n)) == v.i)
      && (v.StrVal? ==> EvalString(u, n) == v.s)
      && (v.BoolVal? ==> EvalBool(u, n) == (v.b && Find(t, x).Some?))
  {
    SetVarKeepsInvariant(t, x, v);
    LookupAfterSet(t, x, v, x);
  }

  // ----- interpret -----

  /** The interpreter's state: the table and the lines printed so far. */
  datatype State = State(vars: Table, out: seq<string>)

  predicate StateInv(s: State)
  {
    TableInv(s.vars)
  }

  /** How `print` shows its argument. */
  datatype Mode = IntMode | BoolMode | StringMode

  /** The display mode `print` chooses; a name the node refers to must be
      defined, because its entry is dereferenced. */
  predicate ModeDefined(t: Table, e: Node)
  {
    e.kind == Literal ==> e.value.Some? && Lookup(t, e.value.value).Some?
  }

  /** `print` shows an int for a number, an operator node or an int variable,
      a boolean for a boolean literal or a `bool` variable, and a string for
      anything else. */
  function PrintMode(t: Table, e: Node): (mode: Mode)
    requires ModeDefined(t, e)
  {
    if e.kind == IntLiteral || (e.kind == Literal && TypeOf(Lookup(t, e.value.value).value) == IntType) || e.kind == BinaryOp then IntMode
    else if e.kind == BoolLiteral || (e.kind == Literal && TypeOf(Lookup(t, e.value.value).value) == BoolType) then BoolMode
    else StringMode
  }

  /** The statements `interpret` runs without undefined behaviour. */
  predicate StepDefined(s: State, n: Node)
  {
    && TableInv(s.vars)
    && match n.kind
       case VarDeclaration =>
         && n.varType.Some? && n.varName.Some?
         && var typ, name := n.varType.value, n.varName.value;
         if typ == "int" then
           IntDefined(s.vars, n.left)
         else if typ == "string" then
           && (n.left.Some? ==> StringDefined(n.left.value))
           && (Lookup(s.vars, name).Some? ==> Lookup(s.vars, name).value.StrVal?)
         else if typ == "bool" then n.left.Some? ==> BoolDefined(n.left.value)
         else true
       case Print =>
         && n.left.Some? && ModeDefined(s.vars, n.left.value)
         && (match PrintMode(s.vars, n.left.value)
             case IntMode => IntDefined(s.vars, n.left)
             case BoolMode => BoolDefined(n.left.value)
             case StringMode => StringDefined(n.left.value))
       case Assignment =>
         && n.varName.Some?
         && (match Lookup(s.vars, n.varName.value)
             case None => true
             case Some(BoolVal(_)) => n.left.Some? && BoolDefined(n.left.value)
             case Some(IntVal(_)) => IntDefined(s.vars, n.left)
             case Some(StrVal(_)) => n.left.Some? && StringDefined(n.left.value))
       case _ => true
  }

  /** One iteration of the `interpret` loop. A declaration binds its
      initializer's value, or 0, "" or `false` without one, according to its
      type text; `print` appends one line; an assignment to a defined name
      evaluates under that variable's current type, and one to an undefined
      name changes nothing; any other node changes nothing. */
  function Step(s: State, n: Node): (r: State)
    requires StepDefined(s, n)
  {
    match n.kind
    case VarDeclaration =>
      var typ, name := n.varType.value, n.varName.value;
      if typ == "int" then
        var value := if n.left.Some? then EvalInt(s.vars, n.left) else 0;
        s.(vars := SetVar(s.vars, name, IntVal(value)))
      else if typ == "string" then
        var value := if n.left.Some? then EvalString(s.vars, n.left.value) else "";
        s.(vars := SetVar(s.vars, name, StrVal(value)))
      else if typ == "bool" then
        var value := if n.left.Some? then EvalBool(s.vars, n.left.value) else false;
        s.(vars := SetVar(s.vars, name, BoolVal(value)))
      else s
    case Print =>
      var e := n.left.value;
      var line := (match PrintMode(s.vars, e)
        case IntMode => DecimalString(EvalInt(s.vars, n.left))
        case BoolMode => if EvalBool(s.vars, e) then "true" else "false"
        case StringMode => EvalString(s.vars, e));
      s.(out := s.out + [line])
    case Assignment =>
      var name := n.varName.value;
      (match Lookup(s.vars, name)
       case None => s
       case Some(BoolVal(_)) => s.(vars := SetVar(s.vars, name, BoolVal(EvalBool(s.vars, n.left.value))))
       case Some(IntVal(_)) => s.(vars := SetVar(s.vars, name, IntVal(EvalInt(s.vars, n.left))))
       case Some(StrVal(_)) => s.(vars := SetVar(s.vars, name, StrVal(EvalString(s.vars, n.left.value)))))
    case _ => s
  }

  /** Every statement keeps the table invariant. */
  lemma StepKeepsInvariant(s: State, n: Node)
    requires StepDefined(s, n)
    ensures StateInv(Step(s, n))
  {
    match n.kind
    case VarDeclaration =>
      var typ, name := n.varType.value, n.varName.value;
      if typ == "int" {
        SetVarKeepsInvariant(s.vars, name, IntVal(if n.left.Some? then EvalInt(s.vars, n.left) else 0));
      } else if typ == "string" {
        SetVarKeepsInvariant(s.vars, name, StrVal(if n.left.Some? then EvalString(s.vars, n.left.value) else ""));
      } else if typ == "bool" {
        SetVarKeepsInvariant(s.vars, name, BoolVal(if n.left.Some? then EvalBool(s.vars, n.left.value) else false));
      }
    case Assignment =>
      var name := n.varName.value;
      match Lookup(s.vars, name) {
        case None =>
        case Some(BoolVal(_)) => SetVarKeepsInvariant(s.vars, name, BoolVal(EvalBool(s.vars, n.left.value)));
        case Some(IntVal(_)) => SetVarKeepsInvariant(s.vars, name, IntVal(EvalInt(s.vars, n.left)));
        case Some(StrVal(_)) => SetVarKeepsInvariant(s.vars, name, StrVal(EvalString(s.vars, n.left.value)));
      }
    case _ =>
  }

  /** Two tables with the same names and types, entry by entry. */
  predicate SameTypes(t: Table, u: Table)
  {
    |t| == |u| && forall k :: 0 <= k < |t| ==> t[k].name == u[k].name && TypeOf(t[k].value) == TypeOf(u[k].value)
  }

  /** An assignment never changes the type of a variable, nor creates one: the
      value is evaluated under the variable's existing type, and an assignment
      to an undefined name changes nothing at all. It prints nothing. */
  lemma AssignmentKeepsTypes(s: State, n: Node)
    requires StepDefined(s, n) && n.kind == Assignment
    ensures SameTypes(s.vars, Step(s, n).vars) && Step(s, n).out == s.out
    ensures Lookup(s.vars, n.varName.value).None? ==> Step(s, n) == s
  {
    var name := n.varName.value;
    match Find(s.vars, name)
    case None =>
    case Some(k) =>
      var v := s.vars[k].value;
      var w := Step(s, n).vars[k].value;
      assert TypeOf(w) == TypeOf(v);
  }

  /** `print` of a defined variable shows it by the variable's type: an int
      in decimal, which `atoi` reads back as the same value; a `bool` as
      `true` or `false`; a string as its text. It appends exactly that line
      and leaves the table as it was. */
  lemma PrintShowsValue(s: State, x: string)
    requires TableInv(s.vars) && Lookup(s.vars, x).Some?
    ensures var n := CreateNode(Print, Some(CreateNode(Literal, None, None, Some(x))), None, None);
      && StepDefined(s, n)
      && Step(s, n).vars == s.vars
      && match Lookup(s.vars, x).value
         case IntVal(v) => Step(s, n).out == s.out + [DecimalString(v)] && Atoi(DecimalString(v)) == v
         case BoolVal(b) => Step(s, n).out == s.out + [if b then "true" else "false"]
         case StrVal(w) => Step(s, n).out == s.out + [w]
  {
    var e := CreateNode(Literal, None, None, Some(x));
    var n := CreateNode(Print, Some(e), None, None);
    var k := Find(s.vars, x).value;
    assert Fits(s.vars[k].value);
    match Lookup(s.vars, x).value
    case IntVal(v) =>
      assert PrintMode(s.vars, e) == IntMode;
      assert IntDefined(s.vars, Some(e));
      assert EvalInt(s.vars, Some(e)) == v;
      AtoiOfDecimalString(v);
    case BoolVal(b) =>
      assert PrintMode(s.vars, e) == BoolMode;
      assert EvalBool(s.vars, e) == b;
    case StrVal(w) =>
      assert PrintMode(s.vars, e) == StringMode;
      assert EvalString(s.vars, e) == w;
  }

  /** `int x = e;` binds `x` to the value of `e`, when the name is already in
      the table or there is room for it, and prints nothing. */
  lemma IntDeclarationStores(s: State, x: string, e: Node)
    requires TableInv(s.vars) && IntDefined(s.vars, Some(e))
    requires Find(s.vars, x).Some? || |s.vars| < MAX_VARIABLES
    ensures var d := CreateVarDeclarationNode("int", x, Some(e));
      && StepDefined(s, d)
      && Step(s, d).out == s.out
      && Lookup(Step(s, d).vars, x) == Some(IntVal(EvalInt(s.vars, Some(e))))
  {
    LookupAfterSet(s.vars, x, IntVal(EvalInt(s.vars, Some(e))), x);
  }

  /** `int x = e; print(x);` prints the value of `e` in decimal, when the name
      is already in the table or there is room for it. */
  lemma DeclareThenPrint(s: State, x: string, e: Node)
    requires TableInv(s.vars) && IntDefined(s.vars, Some(e))
    requires Find(s.vars, x).Some? || |s.vars| < MAX_VARIABLES
    ensures var d := CreateVarDeclarationNode("int", x, Some(e));
      var p := CreateNode(Print, Some(CreateNode(Literal, None, None, Some(x))), None, None);
      && RunDefined(s, [d, p])
      && Run(s, [d, p]).out == s.out + [DecimalString(EvalInt(s.vars, Some(e)))]
  {
    var d := CreateVarDeclarationNode("int", x, Some(e));
    var p := CreateNode(Print, Some(CreateNode(Literal, None, None, Some(x))), None, None);
    IntDeclarationStores(s, x, e);
    StepKeepsInvariant(s, d);
    var s' := Step(s, d);
    PrintShowsValue(s', x);
    RunCons(s', p, []);
    assert [p] + [] == [p];
    RunCons(s, d, [p]);
    assert [d] + [p] == [d, p];
  }

  /** A declaration without initializer binds 0, "" or `false` by its type
      text, when the name exists or there is room for it. */
  lemma DeclarationDefaults(s: State, n: Node)
    requires StepDefined(s, n) && n.kind == VarDeclaration && n.left.None?
    requires Find(s.vars, n.varName.value).Some? || |s.vars| < MAX_VARIABLES
    ensures var typ := n.varType.value;
      Lookup(Step(s, n).vars, n.varName.value) ==
        if typ == "int" then Some(IntVal(0))
        else if typ == "string" then Some(StrVal(""))
        else if typ == "bool" then Some(BoolVal(false))
        else Lookup(s.vars, n.varName.value)
  {
    var typ, name := n.varType.value, n.varName.value;
    if typ == "int" {
      LookupAfterSet(s.vars, name, IntVal(0), name);
    } else if typ == "string" {
      LookupAfterSet(s.vars, name, StrVal(""), name);
    } else if typ == "bool" {
      LookupAfterSet(s.vars, name, BoolVal(false), name);
    }
  }

  /** `interpret` over a statement chain, every statement in order. */
  predicate RunDefined(s: State, chain: Chain)
    decreases |chain|
  {
    |chain| == 0 || (StepDefined(s, chain[0]) && RunDefined(Step(s, chain[0]), chain[1..]))
  }

  function Run(s: State, chain: Chain): (r: State)
    requires RunDefined(s, chain)
    decreases |chain|
  {
    if |chain| == 0 then s else Run(Step(s, chain[0]), chain[1..])
  }

  /** Running a statement and then a chain is running the chain it heads. */
  lemma RunCons(s: State, n: Node, rest: Chain)
    requires StepDefined(s, n) && RunDefined(Step(s, n), rest)
    ensures RunDefined(s, [n] + rest) && Run(s, [n] + rest) == Run(Step(s, n), rest)
  {
    assert ([n] + rest)[0] == n && ([n] + rest)[1..] == rest;
  }

  /** The number of print statements of a chain. */
  function PrintCount(chain: Chain): nat
  {
    if |chain| == 0 then 0 else (if chain[0].kind == Print then 1 else 0) + PrintCount(chain[1..])
  }

  /** Output is only ever appended to, one line per print statement. */
  lemma {:induction false} OutputPerPrint(s: State, chain: Chain)
    requires RunDefined(s, chain)
    ensures |Run(s, chain).out| == |s.out| + PrintCount(chain)
    ensures Run(s, chain).out[..|s.out|] == s.out
    decreases |chain|
  {
    if |chain| > 0 {
      var s' := Step(s, chain[0]);
      assert |s'.out| == |s.out| + (if chain[0].kind == Print then 1 else 0);
      assert s'.out[..|s.out|] == s.out;
      OutputPerPrint(s', chain[1..]);
      assert Run(s, chain).out[..|s.out|] == Run(s, chain).out[..|s'.out|][..|s.out|];
    }
  }

  /** Running a chain keeps the table invariant. */
  lemma {:induction false} RunKeepsInvariant(s: State, chain: Chain)
    requires StateInv(s) && RunDefined(s, chain)
    ensures StateInv(Run(s, chain))
    decreases |chain|
  {
    if |chain| > 0 {
      StepKeepsInvariant(s, chain[0]);
      RunKeepsInvariant(Step(s, chain[0]), chain[1..]);
    }
  }

  /** Running two chains one after the other is running their concatenation. */
  lemma {:induction false} RunConcat(s: State, a: Chain, b: Chain)
    ensures RunDefined(s, a + b) <==> RunDefined(s, a) && RunDefined(Run(s, a), b)
    ensures RunDefined(s, a + b) ==> Run(s, a + b) == Run(Run(s, a), b)
    decreases |a|
  {
    if |a| > 0 {
      assert (a + b)[0] == a[0] && (a + b)[1..] == a[1..] + b;
      if StepDefined(s, a[0]) {
        RunConcat(Step(s, a[0]), a[1..], b);
      }
    } else {
      assert a + b == b;
    }
  }
}
