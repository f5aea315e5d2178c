/** The interpreter of interpreter.c as an object holding its global state: the
    static table of variables with its count, and standard output. Every method
    is proved to do what the functions of module Semantics say. */
module Interpreter {
  import opened Wrappers
  import opened CInt
  import opened Ast
  import opened Semantics

  class Interpreter {
    /** The static `variables` array: 100 entries, the first `count` in use. */
    const variables: array<Variable>
    /** `variable_count`. */
    var count: nat
    /** The lines `print` has written to standard output. */
    var output: seq<string>

    ghost predicate Valid()
      reads this, variables
    {
      variables.Length == MAX_VARIABLES && count <= MAX_VARIABLES && TableInv(variables[..count])
    }

    /** The table in use. */
    ghost function Entries(): Table
      reads this, variables
      requires Valid()
    {
      variables[..count]
    }

    /** The interpreter's state as module Semantics sees it. */
    ghost function Current(): State
      reads this, variables
      requires Valid()
    {
      State(Entries(), output)
    }

    /** The program starts with an empty table, its storage zeroed, and
        nothing printed. */
    constructor ()
      ensures Valid() && Entries() == [] && output == []
    {
      variables := new Variable[MAX_VARIABLES](_ => Variable("", IntVal(0)));
      count := 0;
      output := [];
    }

    /** `get_variable`: the index of the first entry with the name. */
    method GetVariable(name: string) returns (index: Option<nat>)
      requires Valid()
      ensures index == Find(Entries(), name)
    {
      var i := 0;
      while i < count
        invariant 0 <= i <= count
        invariant forall k :: 0 <= k < i ==> variables[k].name != name
      {
        if variables[i].name == name {
          return Some(i);
        }
        i := i + 1;
      }
      return None;
    }

    /** `set_variable`: the first loop looks for the name and updates its
        entry in place; a new name is appended below capacity; at capacity
        nothing changes. */
    method SetVariable(name: string, value: Value)
      requires Valid() && SetDefined(Entries(), name, value)
      modifies this, variables
      ensures Valid() && Entries() == SetVar(old(Entries()), name, value) && output == old(output)
    {
      ghost var before := Entries();
      SetVarKeepsInvariant(before, name, value);
      var index := GetVariable(name);
      if index.Some? {
        variables[index.value] := Variable(name, value);
        assert Entries() == before[index.value := Variable(name, value)];
      } else if count < MAX_VARIABLES {
        variables[count] := Variable(name, Inserted(value));
        count := count + 1;
        assert Entries() == before + [Variable(name, Inserted(value))];
      }
    }

    /** `evaluate_expression`. */
    method EvaluateExpression(node: Option<Node>) returns (v: int)
      requires Valid() && IntDefined(Entries(), node)
      ensures v == EvalInt(Entries(), node)
      decreases node
    {
      if node.None? {
        return 0;
      }
      var n := node.value;
      if n.kind == IntLiteral {
        v := Atoi(n.value.value);
      } else if n.kind == Literal {
        var index := GetVariable(n.value.value);
        if index.Some? && variables[index.value].value.IntVal? {
          v := variables[index.value].value.i;
        } else {
          v := 0;
        }
      } else if n.kind == BoolLiteral {
        v := if StrToBool(n.value.value) then 1 else 0;
      } else if n.kind == BinaryOp {
        var left := EvaluateExpression(n.left);
        var right := EvaluateExpression(n.right);
        var op := n.value.value;
        if op == "+" {
          v := left + right;
        } else if op == "-" {
          v := left - right;
        } else if op == "*" {
          v := left * right;
        } else if op == "/" {
          v := if right == 0 then 0 else CDiv(left, right);
        } else if op == "**" {
          v := CPow(left, right);
        } else if op == "%" {
          v := if right == 0 then 0 else CRem(left, right);
        } else {
          v := 0;
        }
      } else {
        v := 0;
      }
    }

    /** `evaluate_bool_expression`. */
    method EvaluateBoolExpression(node: Node) returns (b: bool)
      requires Valid() && BoolDefined(node)
      ensures b == EvalBool(Entries(), node)
    {
      if node.kind == BoolLiteral {
        b := StrToBool(node.value.value);
      } else if node.kind == Literal {
        var index := GetVariable(node.value.value);
        b := index.Some? && variables[index.value].value == BoolVal(true);
      } else {
        b := false;
      }
    }

    /** `evaluate_string_expression`. */
    method EvaluateStringExpression(node: Node) returns (s: string)
      requires Valid() && StringDefined(node)
      ensures s == EvalString(Entries(), node)
    {
      if node.kind == StringLiteral {
        s := node.value.value;
      } else if node.kind == Literal {
        var index := GetVariable(node.value.value);
        if index.Some? && variables[index.value].value.StrVal? {
          s := variables[index.value].value.s;
        } else {
          s := "";
        }
      } else {
        s := "";
      }
    }

    /** `interpret`: the statements of the chain, one after the other. */
    method Interpret(chain: Chain)
      requires Valid() && RunDefined(Current(), chain)
      modifies this, variables
      ensures Valid() && Current() == Run(old(Current()), chain)
    {
      var i := 0;
      while i < |chain|
        invariant 0 <= i <= |chain| && Valid()
        invariant RunDefined(Current(), chain[i..])
        invariant Run(old(Current()), chain) == Run(Current(), chain[i..])
      {
        assert chain[i..][0] == chain[i] && chain[i..][1..] == chain[i + 1..];
        Execute(chain[i]);
        i := i + 1;
      }
    }

    /** The body of the `interpret` loop for one statement. */
    method Execute(node: Node)
      requires Valid() && StepDefined(Current(), node)
      modifies this, variables
      ensures Valid() && Current() == Step(old(Current()), node)
    {
      if node.kind == VarDeclaration {
        var typ, name := node.varType.value, node.varName.value;
        if typ == "int" {
          var value := 0;
          if node.left.Some? {
            value := EvaluateExpression(node.left);
          }
          SetVariable(name, IntVal(value));
        } else if typ == "string" {
          var value := "";
          if node.left.Some? {
            value := EvaluateStringExpression(node.left.value);
          }
          SetVariable(name, StrVal(value));
        } else if typ == "bool" {
          var value := false;
          if node.left.Some? {
            value := EvaluateBoolExpression(node.left.value);
          }
          SetVariable(name, BoolVal(value));
        }
      } else if node.kind == Print {
        var e := node.left.value;
        var named: Option<VarType> := None;
        if e.kind == Literal {
          var index := GetVariable(e.value.value);
          named := Some(TypeOf(variables[index.value].value));
        }
        if e.kind == IntLiteral || named == Some(IntType) || e.kind == BinaryOp {
          var result := EvaluateExpression(node.left);
          output := output + [DecimalString(result)];
        } else if e.kind == BoolLiteral || named == Some(BoolType) {
          var result := EvaluateBoolExpression(e);
          output := output + [if result then "true" else "false"];
        } else {
          var result := EvaluateStringExpression(e);
          output := output + [result];
        }
      } else if node.kind == Assignment {
        var name := node.varName.value;
        var index := GetVariable(name);
        if index.Some? {
          var current := variables[index.value].value;
          if current.BoolVal? {
            var value := EvaluateBoolExpression(node.left.value);
            SetVariable(name, BoolVal(value));
          } else if current.IntVal? {
            var value := EvaluateExpression(node.left);
            SetVariable(name, IntVal(value));
          } else {
            var value := EvaluateStringExpression(node.left.value);
            SetVariable(name, StrVal(value));
          }
        }
      }
    }
  }
}
