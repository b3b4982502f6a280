/** The interpreter object and the control operators, as the imperative code they are:
    the interpreter owns the variable dictionary and updates it in place, `evaluateHelper`
    rebuilds an operation from its children in a loop, and `handleBlock` and
    `handleAssign` call back into the interpreter. Each method is proved to compute
    exactly what the functional specification in module `Evaluation` says, result and new
    variables both. */
module Interpreters {
  import opened Exceptions
  import opened AstNodes
  import opened ExpressionOperators
  import Evaluation

  /** An interpreter with the calculator's operator registries. The double arithmetic, the
      GUI handler and the fuel are fixed when it is built; the variables and the image
      drawer change. */
  class Interpreter<!D> {
    const ops: FloatOps
    const gui: Evaluation.GuiHandler<D>
    const fuel: nat
    var variables: Env
    var imageDrawer: Evaluation.Option<D>

    /** What evaluation depends on, besides the variables. */
    function Context(): Evaluation.Context<D>
      reads this`imageDrawer
    {
      Evaluation.Context(ops, gui, imageDrawer, fuel)
    }

    /** A fresh interpreter has no variables and no image drawer. */
    constructor(ops: FloatOps, gui: Evaluation.GuiHandler<D>, fuel: nat)
      ensures this.ops == ops && this.gui == gui && this.fuel == fuel
      ensures variables == map[] && imageDrawer == Evaluation.None
    {
      this.ops := ops;
      this.gui := gui;
      this.fuel := fuel;
      variables := map[];
      imageDrawer := Evaluation.None;
    }

    method SetImageDrawer(drawer: Evaluation.Option<D>)
      modifies this`imageDrawer
      ensures imageDrawer == drawer
    {
      imageDrawer := drawer;
    }

    /** `evaluate`: the tree is wrapped in `simplify` and evaluated. */
    method Evaluate(node: AstNode) returns (r: Result<AstNode>)
      modifies this`variables
      ensures Evaluation.Outcome(r, variables) == Evaluation.Evaluate(Context(), old(variables), node)
      decreases Size(node) + 1, 1
    {
      r := EvaluateHelper(Evaluation.WrapNodeWithSimplify(node));
    }

    /** `evaluateHelper`: dispatches on the kind of node and on the registry that holds the
        operation's name. */
    method EvaluateHelper(node: AstNode) returns (r: Result<AstNode>)
      modifies this`variables
      ensures Evaluation.Outcome(r, variables) == Evaluation.EvalNode(Context(), old(variables), node)
      decreases Size(node), if Evaluation.IsSimplify(node) then 0 else 4
    {
      if node.Number? || node.Variable? {
        return Ok(node);
      }
      var name := node.name;
      if name in Evaluation.ControlOperators {
        if name == "block" {
          r := HandleBlock(node, this);
        } else if name == "assign" {
          r := HandleAssign(node, this);
        } else {
          r := HandleQuit(node, this);
        }
        return;
      }

      // the children, evaluated left to right into a new list
      var cs := node.children;
      var children: seq<AstNode> := [];
      ghost var env0 := variables;
      var i := 0;
      assert cs[0..] == cs;
      Evaluation.PrependNothing(Evaluation.EvalChildren(Context(), variables, cs));
      while i < |cs|
        invariant 0 <= i <= |cs|
        invariant Evaluation.EvalChildren(Context(), env0, cs)
                  == Evaluation.Prepend(children, Evaluation.EvalChildren(Context(), variables, cs[i..]))
      {
        assert cs[i..][0] == cs[i] && cs[i..][1..] == cs[i + 1..];
        var child := EvaluateHelper(cs[i]);
        if child.Throw? {
          return Throw(child.exception);
        }
        Evaluation.PrependTwice(children, [child.value], Evaluation.EvalChildren(Context(), variables, cs[i + 1..]));
        children := children + [child.value];
        i := i + 1;
      }
      assert cs[i..] == [] && children + [] == children;
      var output := Operation(name, children);

      // the handler registered for the name, if any
      if name == "simplify" {
        r := HandleSimplify(ops, variables, output, fuel);
      } else if name == "toDouble" {
        r := HandleToDouble(ops, variables, output, fuel);
      } else if name in Evaluation.GuiOperators {
        var outcome := gui(output, variables, imageDrawer);
        r := outcome.result;
        variables := outcome.env;
      } else {
        r := Ok(output);
      }
    }
  }

  /** `handleQuit`: ends the session. */
  method HandleQuit<D>(node: AstNode, interpreter: Interpreter<D>) returns (r: Result<AstNode>)
    ensures r == Throw(QuitError)
  {
    return Throw(QuitError);
  }

  /** `handleBlock`: evaluates the children one by one, through the interpreter; the value
      is the last child's, or `1` when there is none. */
  method HandleBlock<D>(node: AstNode, interpreter: Interpreter<D>) returns (r: Result<AstNode>)
    modifies interpreter`variables
    ensures Evaluation.Outcome(r, interpreter.variables)
            == Evaluation.HandleBlock(interpreter.Context(), old(interpreter.variables), node)
    decreases Size(node), 3
  {
    var valid := AssertOperatorValid("block", node);
    if valid.Throw? {
      return Throw(valid.exception);
    }
    var out := Number(1.0);
    var cs := node.children;
    ghost var env0 := interpreter.variables;
    for i := 0 to |cs|
      invariant Evaluation.HandleBlock(interpreter.Context(), env0, node)
                == Evaluation.BlockLoop(interpreter.Context(), interpreter.variables, cs[i..], out)
    {
      assert cs[i..][0] == cs[i] && cs[i..][1..] == cs[i + 1..];
      var child := interpreter.Evaluate(cs[i]);
      if child.Throw? {
        return child;
      }
      out := child.value;
    }
    assert cs[|cs|..] == [];
    return Ok(out);
  }

  /** `handleAssign`: evaluates the right-hand side through the interpreter, then binds the
      left-hand side, which must be a variable. */
  method HandleAssign<D>(node: AstNode, interpreter: Interpreter<D>) returns (r: Result<AstNode>)
    modifies interpreter`variables
    ensures Evaluation.Outcome(r, interpreter.variables)
            == Evaluation.HandleAssign(interpreter.Context(), old(interpreter.variables), node)
    decreases Size(node), 3
  {
    var valid := AssertOperatorArityValid("assign", 2, node);
    if valid.Throw? {
      return Throw(valid.exception);
    }
    var children := node.children;
    var target := children[0];
    var expr := interpreter.Evaluate(children[1]);
    if expr.Throw? {
      return expr;
    }
    if !target.Variable? {
      return Throw(EvaluationError(AssignTargetNotVariable));
    }
    interpreter.variables := interpreter.variables[target.name := expr.value];
    return expr;
  }
}
