/** The two expression operators: `toDouble`, which reduces a tree to one number, and
    `simplify`, which folds constant `+`, `-` and `*` nodes in one pass and substitutes
    bound variables. Both only read the variable environment.

    Numbers are kept abstract: the arithmetic of Java's `double` (including division by
    zero, `Math.pow`, `Math.sin` and `Math.cos`) is a parameter `ops`, and nothing numeric
    is proved. Following a variable binding costs one unit of `fuel`; the source follows
    bindings with no cycle check, and running out of fuel (`Diverges`) stands for its
    unbounded recursion. The fuel lemmas below show that more fuel never changes an
    answer that did not diverge. */
module ExpressionOperators {
  import opened Exceptions
  import opened AstNodes

  /** The double arithmetic the operators use. */
  datatype FloatOps = FloatOps(
    add: (real, real) -> real,
    sub: (real, real) -> real,
    mul: (real, real) -> real,
    div: (real, real) -> real,
    pow: (real, real) -> real,
    sin: real -> real,
    cos: real -> real)

  /** The variable environment: each name bound to the node assigned to it. */
  type Env = map<string, AstNode>

  const BinaryOperators: set<string> := {"*", "/", "+", "-", "^"}
  const UnaryOperators: set<string> := {"sin", "cos", "negate"}
  /** The operations `simplify` folds when both children are numbers. */
  const FoldedOperators: set<string> := {"+", "-", "*"}

  function Binary(ops: FloatOps, name: string, a: real, b: real): real
    requires name in BinaryOperators
  {
    match name
    case "*" => ops.mul(a, b)
    case "/" => ops.div(a, b)
    case "+" => ops.add(a, b)
    case "-" => ops.sub(a, b)
    case "^" => ops.pow(a, b)
  }

  /** `negate` is computed as `0.0 - x`. */
  function Unary(ops: FloatOps, name: string, a: real): real
    requires name in UnaryOperators
  {
    match name
    case "sin" => ops.sin(a)
    case "cos" => ops.cos(a)
    case "negate" => ops.sub(0.0, a)
  }

  // ---------------------------------------------------------------------------------------
  // toDouble

  /** `toDoubleHelper`: Java evaluates `children.get(0)`, its reduction, `children.get(1)`
      and its reduction in that order, so a missing child is reported only after the
      earlier operands reduced. Children past the ones an operator uses are ignored. */
  function ToDoubleHelper(ops: FloatOps, env: Env, n: AstNode, fuel: nat): (r: Result<real>)
    ensures r.Throw? ==> r.exception != QuitError
    decreases fuel, n
  {
    match n
    case Number(v) => Ok(v)
    case Variable(x) =>
      if x !in env then Throw(EvaluationError(UndefinedVariable))
      else if fuel == 0 then Throw(Diverges)
      else ToDoubleHelper(ops, env, env[x], fuel - 1)
    case Operation(name, cs) =>
      if name in BinaryOperators then
        if |cs| < 1 then Throw(IndexOutOfBounds)
        else
          var a :- ToDoubleHelper(ops, env, cs[0], fuel);
          if |cs| < 2 then Throw(IndexOutOfBounds)
          else
            var b :- ToDoubleHelper(ops, env, cs[1], fuel);
            Ok(Binary(ops, name, a, b))
      else if name in UnaryOperators then
        if |cs| < 1 then Throw(IndexOutOfBounds)
        else
          var a :- ToDoubleHelper(ops, env, cs[0], fuel);
          Ok(Unary(ops, name, a))
      else Throw(EvaluationError(UnknownOperation))
  }

  /** `handleToDouble`: the node must be `toDouble` with exactly one child; the answer is a
      number node. */
  function HandleToDouble(ops: FloatOps, env: Env, node: AstNode, fuel: nat): (r: Result<AstNode>)
    ensures AssertOperatorArityValid("toDouble", 1, node).Throw? ==>
              r == Throw(AssertOperatorArityValid("toDouble", 1, node).exception)
    ensures r.Ok? <==> AssertOperatorArityValid("toDouble", 1, node).Ok? &&
                       ToDoubleHelper(ops, env, node.children[0], fuel).Ok?
    ensures r.Ok? ==> IsNumber(r.value)
    ensures r.Ok? ==> r.value == Number(ToDoubleHelper(ops, env, node.children[0], fuel).value)
    ensures AssertOperatorArityValid("toDouble", 1, node).Ok? &&
            ToDoubleHelper(ops, env, node.children[0], fuel).Throw? ==>
              r == Throw(ToDoubleHelper(ops, env, node.children[0], fuel).exception)
    ensures r.Throw? ==> r.exception != QuitError
  {
    var valid :- AssertOperatorArityValid("toDouble", 1, node);
    var v :- ToDoubleHelper(ops, env, node.children[0], fuel);
    Ok(Number(v))
  }

  /** A variable with no binding is an error; a bound variable reduces through the node it
      is bound to, so chains of bindings resolve, one unit of fuel per link. */
  lemma ToDoubleVariable(ops: FloatOps, env: Env, x: string, fuel: nat)
    ensures x !in env ==> ToDoubleHelper(ops, env, Variable(x), fuel) == Throw(EvaluationError(UndefinedVariable))
    ensures x in env ==> ToDoubleHelper(ops, env, Variable(x), fuel + 1) == ToDoubleHelper(ops, env, env[x], fuel)
  {
  }

  /** A known operation reduces its first operand, then its second, and combines the two
      numbers; an error in either operand is the error of the whole. */
  lemma ToDoubleOperation(ops: FloatOps, env: Env, name: string, cs: seq<AstNode>, fuel: nat)
    ensures name in BinaryOperators && |cs| >= 2 ==>
              ToDoubleHelper(ops, env, Operation(name, cs), fuel) ==
                (match ToDoubleHelper(ops, env, cs[0], fuel)
                 case Throw(e) => Throw(e)
                 case Ok(a) =>
                   match ToDoubleHelper(ops, env, cs[1], fuel)
                   case Throw(e) => Throw(e)
                   case Ok(b) => Ok(Binary(ops, name, a, b)))
    ensures name in UnaryOperators && |cs| >= 1 ==>
              ToDoubleHelper(ops, env, Operation(name, cs), fuel) ==
                (match ToDoubleHelper(ops, env, cs[0], fuel)
                 case Throw(e) => Throw(e)
                 case Ok(a) => Ok(Unary(ops, name, a)))
    ensures name in BinaryOperators + UnaryOperators && cs == [] ==>
              ToDoubleHelper(ops, env, Operation(name, cs), fuel) == Throw(IndexOutOfBounds)
  {
  }

  /** Any operation outside the eight the reducer knows is an error, whatever its
      children; and an error naming an unknown operation always comes from such a node. */
  lemma {:induction false} ToDoubleUnknownOperation(ops: FloatOps, env: Env, n: AstNode, fuel: nat)
    ensures n.Operation? && n.name !in BinaryOperators + UnaryOperators ==>
              ToDoubleHelper(ops, env, n, fuel) == Throw(EvaluationError(UnknownOperation))
    ensures ToDoubleHelper(ops, env, n, fuel) == Throw(EvaluationError(UnknownOperation)) ==>
              ContainsOperationOutside(n, BinaryOperators + UnaryOperators, env, fuel)
    decreases fuel, n
  {
    match n
    case Number(_) =>
    case Variable(x) =>
      if x in env && fuel > 0 {
        ToDoubleUnknownOperation(ops, env, env[x], fuel - 1);
      }
    case Operation(name, cs) =>
      if |cs| >= 1 {
        ToDoubleUnknownOperation(ops, env, cs[0], fuel);
      }
      if |cs| >= 2 {
        ToDoubleUnknownOperation(ops, env, cs[1], fuel);
      }
  }

  /** Whether an operation named outside `known` is reachable from `n` through the first two
      children and through at most `fuel` variable bindings. */
  predicate ContainsOperationOutside(n: AstNode, known: set<string>, env: Env, fuel: nat)
    decreases fuel, n
  {
    match n
    case Number(_) => false
    case Variable(x) => x in env && fuel > 0 && ContainsOperationOutside(env[x], known, env, fuel - 1)
    case Operation(name, cs) =>
      name !in known
      || (|cs| >= 1 && ContainsOperationOutside(cs[0], known, env, fuel))
      || (|cs| >= 2 && ContainsOperationOutside(cs[1], known, env, fuel))
  }

  /** More fuel never changes an answer that did not run out of fuel. */
  lemma {:induction false} ToDoubleFuelMonotone(ops: FloatOps, env: Env, n: AstNode, fuel: nat, more: nat)
    requires fuel <= more
    requires ToDoubleHelper(ops, env, n, fuel) != Throw(Diverges)
    ensures ToDoubleHelper(ops, env, n, more) == ToDoubleHelper(ops, env, n, fuel)
    decreases fuel, n
  {
    match n
    case Number(_) =>
    case Variable(x) =>
      if x in env {
        ToDoubleFuelMonotone(ops, env, env[x], fuel - 1, more - 1);
      }
    case Operation(name, cs) =>
      if |cs| >= 1 && (name in BinaryOperators || name in UnaryOperators) {
        ToDoubleFuelMonotone(ops, env, cs[0], fuel, more);
        if |cs| >= 2 && name in BinaryOperators && ToDoubleHelper(ops, env, cs[0], fuel).Ok? {
          ToDoubleFuelMonotone(ops, env, cs[1], fuel, more);
        }
      }
  }

  // ---------------------------------------------------------------------------------------
  // simplify

  /** `simplifyHelper`. The fold test looks at the children as they are, before they are
      simplified; `children.get(0)` and `children.get(1)` throw on a `+`, `-` or `*` node
      that has too few children (the second only when the first is a number). A node that
      is not folded keeps its name, has its first two children simplified and loses the
      others; an operation with no children is returned as it is. */
  function SimplifyHelper(ops: FloatOps, env: Env, n: AstNode, fuel: nat): (r: Result<AstNode>)
    ensures r.Throw? ==> r.exception != QuitError
    ensures r.Ok? && n.Operation? && !r.value.Number? ==>
              r.value.Operation? && r.value.name == n.name
    decreases fuel, n
  {
    match n
    case Number(_) => Ok(n)
    case Variable(x) =>
      if x !in env then Ok(n)
      else if fuel == 0 then Throw(Diverges)
      else SimplifyHelper(ops, env, env[x], fuel - 1)
    case Operation(name, cs) =>
      if name in FoldedOperators && (|cs| < 1 || (cs[0].Number? && |cs| < 2)) then
        Throw(IndexOutOfBounds)
      else if name in FoldedOperators && cs[0].Number? && cs[1].Number? then
        var v :- ToDoubleHelper(ops, env, n, fuel);
        Ok(Number(v))
      else if |cs| >= 1 then
        var first :- SimplifyHelper(ops, env, cs[0], fuel);
        if |cs| > 1 then
          var second :- SimplifyHelper(ops, env, cs[1], fuel);
          Ok(Operation(name, [first, second]))
        else Ok(Operation(name, [first]))
      else Ok(n)
  }

  /** `handleSimplify`: the node must be `simplify` with exactly one child. */
  function HandleSimplify(ops: FloatOps, env: Env, node: AstNode, fuel: nat): (r: Result<AstNode>)
    ensures AssertOperatorArityValid("simplify", 1, node).Throw? ==>
              r == Throw(AssertOperatorArityValid("simplify", 1, node).exception)
    ensures AssertOperatorArityValid("simplify", 1, node).Ok? ==>
              r == SimplifyHelper(ops, env, node.children[0], fuel)
    ensures r.Throw? ==> r.exception != QuitError
  {
    var valid :- AssertOperatorArityValid("simplify", 1, node);
    SimplifyHelper(ops, env, node.children[0], fuel)
  }

  /** Numbers and unbound variables are left alone; a bound variable is replaced by the
      simplification of the node it is bound to. */
  lemma SimplifyLeaves(ops: FloatOps, env: Env, v: real, x: string, fuel: nat)
    ensures SimplifyHelper(ops, env, Number(v), fuel) == Ok(Number(v))
    ensures x !in env ==> SimplifyHelper(ops, env, Variable(x), fuel) == Ok(Variable(x))
    ensures x in env ==> SimplifyHelper(ops, env, Variable(x), fuel + 1) == SimplifyHelper(ops, env, env[x], fuel)
  {
  }

  /** `+`, `-` and `*` with two number children (and any further children) become one
      number. */
  lemma FoldsSumDifferenceProduct(ops: FloatOps, env: Env, name: string, a: real, b: real,
                                  rest: seq<AstNode>, fuel: nat)
    requires name in FoldedOperators
    ensures SimplifyHelper(ops, env, Operation(name, [Number(a), Number(b)] + rest), fuel)
            == Ok(Number(Binary(ops, name, a, b)))
  {
    var n := Operation(name, [Number(a), Number(b)] + rest);
    assert n.children[0] == Number(a) && n.children[1] == Number(b);
    assert ToDoubleHelper(ops, env, n, fuel) == Ok(Binary(ops, name, a, b));
  }

  /** `/` and `^` are never folded, even with two number children. */
  lemma NeverFoldsQuotientOrPower(ops: FloatOps, env: Env, name: string, a: real, b: real, fuel: nat)
    requires name == "/" || name == "^"
    ensures SimplifyHelper(ops, env, Operation(name, [Number(a), Number(b)]), fuel)
            == Ok(Operation(name, [Number(a), Number(b)]))
  {
  }

  /** A node that is not folded keeps its name and exactly its first two children (at most),
      each simplified; an operation without children is returned unchanged. */
  lemma SimplifyOperationShape(ops: FloatOps, env: Env, name: string, cs: seq<AstNode>, fuel: nat)
    requires !(name in FoldedOperators && |cs| >= 2 && cs[0].Number? && cs[1].Number?)
    requires SimplifyHelper(ops, env, Operation(name, cs), fuel).Ok?
    ensures var r := SimplifyHelper(ops, env, Operation(name, cs), fuel).value;
            && r.Operation? && r.name == name
            && |r.children| == (if |cs| < 2 then |cs| else 2)
            && (forall i :: 0 <= i < |r.children| ==>
                  SimplifyHelper(ops, env, cs[i], fuel) == Ok(r.children[i]))
  {
  }

  /** The fold test runs before the children are simplified, so one pass turns
      `(1 + 2) + 3` into `3 + 3` (the inner sum folds, the outer one does not), and `x + 1`
      with `x` bound to `2` into `2 + 1`. */
  lemma SinglePassLeavesFoldableSums(ops: FloatOps, fuel: nat)
    ensures SimplifyHelper(ops, map[], Operation("+", [Operation("+", [Number(1.0), Number(2.0)]), Number(3.0)]), fuel)
            == Ok(Operation("+", [Number(ops.add(1.0, 2.0)), Number(3.0)]))
    ensures SimplifyHelper(ops, map["x" := Number(2.0)], Operation("+", [Variable("x"), Number(1.0)]), fuel + 1)
            == Ok(Operation("+", [Number(2.0), Number(1.0)]))
  {
    FoldsSumDifferenceProduct(ops, map[], "+", 1.0, 2.0, [], fuel);
    assert [Number(1.0), Number(2.0)] + [] == [Number(1.0), Number(2.0)];
    var inner := Operation("+", [Number(1.0), Number(2.0)]);
    assert SimplifyHelper(ops, map[], inner, fuel) == Ok(Number(ops.add(1.0, 2.0)));
    assert SimplifyHelper(ops, map[], Number(3.0), fuel) == Ok(Number(3.0));
    var env := map["x" := Number(2.0)];
    assert SimplifyHelper(ops, env, Variable("x"), fuel + 1) == Ok(Number(2.0));
    assert SimplifyHelper(ops, env, Number(1.0), fuel + 1) == Ok(Number(1.0));
  }

  /** More fuel never changes a simplification that did not run out of fuel. */
  lemma {:induction false} SimplifyFuelMonotone(ops: FloatOps, env: Env, n: AstNode, fuel: nat, more: nat)
    requires fuel <= more
    requires SimplifyHelper(ops, env, n, fuel) != Throw(Diverges)
    ensures SimplifyHelper(ops, env, n, more) == SimplifyHelper(ops, env, n, fuel)
    decreases fuel, n
  {
    match n
    case Number(_) =>
    case Variable(x) =>
      if x in env {
        SimplifyFuelMonotone(ops, env, env[x], fuel - 1, more - 1);
      }
    case Operation(name, cs) =>
      if name in FoldedOperators && |cs| >= 2 && cs[0].Number? && cs[1].Number? {
        ToDoubleFuelMonotone(ops, env, n, fuel, more);
      } else if |cs| >= 1 {
        SimplifyFuelMonotone(ops, env, cs[0], fuel, more);
        if |cs| > 1 && SimplifyHelper(ops, env, cs[0], fuel).Ok? {
          SimplifyFuelMonotone(ops, env, cs[1], fuel, more);
        }
      }
  }

  /** Simplification preserves meaning: reducing the simplified tree, with any fuel at all,
      gives exactly what reducing the original gives with the fuel the simplification used,
      errors included. */
  lemma {:induction false} SimplifyPreservesValue(ops: FloatOps, env: Env, n: AstNode, fuel: nat, any: nat)
    requires SimplifyHelper(ops, env, n, fuel).Ok?
    ensures ToDoubleHelper(ops, env, SimplifyHelper(ops, env, n, fuel).value, any)
            == ToDoubleHelper(ops, env, n, fuel)
    decreases fuel, n
  {
    match n
    case Number(_) =>
    case Variable(x) =>
      if x in env {
        SimplifyPreservesValue(ops, env, env[x], fuel - 1, any);
      }
    case Operation(name, cs) =>
      if name in FoldedOperators && cs[0].Number? && cs[1].Number? {
      } else if |cs| >= 1 {
        SimplifyPreservesValue(ops, env, cs[0], fuel, any);
        if |cs| > 1 {
          SimplifyPreservesValue(ops, env, cs[1], fuel, any);
        }
      }
  }
}
