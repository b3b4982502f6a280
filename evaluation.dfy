/** What evaluating a tree means: the functional specification the interpreter and its
    control operators are proved against.

    Evaluation threads the variable environment from left to right. Java mutates one shared
    dictionary, so an assignment made before an exception is thrown stays made; every
    function here therefore returns the environment alongside the result, on failure too.

    The interpreter is built with the operator registries the calculator installs:
    `block`, `assign`, `quit` and `exit` are control operators (their handlers receive the
    children unevaluated), `simplify` and `toDouble` are expression operators, and `plot`
    and `clear` are GUI operators, whose handler is a parameter of the context. */
module Evaluation {
  import opened Exceptions
  import opened AstNodes
  import opened ExpressionOperators

  datatype Option<T> = None | Some(value: T)

  /** A result together with the environment as it stands afterwards. */
  datatype Outcome<+T> = Outcome(result: Result<T>, env: Env)

  /** The handler of the GUI operators: it receives the node with evaluated children, the
      environment and the image drawer, and may change the environment. */
  type GuiHandler<!D> = (AstNode, Env, Option<D>) -> Outcome<AstNode>

  /** Everything evaluation depends on besides the environment. */
  datatype Context<!D> = Context(ops: FloatOps, gui: GuiHandler<D>, drawer: Option<D>, fuel: nat)

  const ControlOperators: set<string> := {"block", "assign", "quit", "exit"}
  const RegularOperators: set<string> := {"simplify", "toDouble"}
  const GuiOperators: set<string> := {"plot", "clear"}

  predicate IsSimplify(n: AstNode) {
    n.Operation? && n.name == "simplify"
  }

  /** Whether evaluating the tree can change the environment at all: only `assign` and the
      GUI operators write to it. */
  predicate Writes(n: AstNode)
    decreases n, 1
  {
    n.Operation? && (n.name == "assign" || n.name in GuiOperators || WritesAny(n.children))
  }

  predicate WritesAny(cs: seq<AstNode>)
    decreases cs, 0
  {
    cs != [] && (Writes(cs[0]) || WritesAny(cs[1..]))
  }

  /** `wrapNodeWithSimplify`: a tree is evaluated inside a `simplify` node, unless it
      already is one. */
  function WrapNodeWithSimplify(n: AstNode): (r: AstNode)
    ensures IsSimplify(r)
    ensures IsSimplify(n) ==> r == n
    ensures !IsSimplify(n) ==> r.children == [n]
    ensures Size(r) <= Size(n) + 1
    ensures Writes(r) == Writes(n)
  {
    if IsSimplify(n) then n
    else
      assert [n][0] == n && [n][1..] == [];
      assert SizeAll([n]) == Size(n) + SizeAll([]);
      assert WritesAny([n]) == (Writes(n) || WritesAny([]));
      Operation("simplify", [n])
  }

  /** `evaluate`: wrap, then evaluate. */
  function Evaluate<D>(ctx: Context<D>, env: Env, n: AstNode): (r: Outcome<AstNode>)
    ensures !Writes(n) ==> r.env == env
    decreases Size(n) + 1, 1
  {
    EvalNode(ctx, env, WrapNodeWithSimplify(n))
  }

  /** `evaluateHelper`: leaves are returned as they are; a control operator gets its node
      with the children unevaluated; any other operation has its children evaluated left to
      right, is rebuilt from them and handed to its handler, if it has one. An operation
      with no handler comes back rebuilt. */
  function EvalNode<D>(ctx: Context<D>, env: Env, n: AstNode): (r: Outcome<AstNode>)
    ensures !Writes(n) ==> r.env == env
    decreases Size(n), if IsSimplify(n) then 0 else 4
  {
    match n
    case Number(_) => Outcome(Ok(n), env)
    case Variable(_) => Outcome(Ok(n), env)
    case Operation(name, cs) =>
      if name in ControlOperators then
        if name == "block" then HandleBlock(ctx, env, n)
        else if name == "assign" then HandleAssign(ctx, env, n)
        else HandleQuit(env, n)
      else
        var evaluated := EvalChildren(ctx, env, cs);
        if evaluated.result.Throw? then Outcome(Throw(evaluated.result.exception), evaluated.env)
        else
          var output := Operation(name, evaluated.result.value);
          var env1 := evaluated.env;
          if name == "simplify" then Outcome(HandleSimplify(ctx.ops, env1, output, ctx.fuel), env1)
          else if name == "toDouble" then Outcome(HandleToDouble(ctx.ops, env1, output, ctx.fuel), env1)
          else if name in GuiOperators then ctx.gui(output, env1, ctx.drawer)
          else Outcome(Ok(output), env1)
  }

  /** The children evaluated in order; the first exception stops the loop. */
  function EvalChildren<D>(ctx: Context<D>, env: Env, cs: seq<AstNode>): (r: Outcome<seq<AstNode>>)
    ensures r.result.Ok? ==> |r.result.value| == |cs|
    ensures !WritesAny(cs) ==> r.env == env
    decreases SizeAll(cs), 5
  {
    if cs == [] then Outcome(Ok([]), env)
    else
      var first := EvalNode(ctx, env, cs[0]);
      if first.result.Throw? then Outcome(Throw(first.result.exception), first.env)
      else Prepend([first.result.value], EvalChildren(ctx, first.env, cs[1..]))
  }

  /** Puts results already computed in front of the results of the rest of a loop. */
  function Prepend(done: seq<AstNode>, rest: Outcome<seq<AstNode>>): (r: Outcome<seq<AstNode>>)
    ensures r.env == rest.env
    ensures r.result.Ok? <==> rest.result.Ok?
    ensures r.result.Ok? ==> r.result.value == done + rest.result.value
    ensures r.result.Throw? ==> r.result == rest.result
  {
    if rest.result.Ok? then Outcome(Ok(done + rest.result.value), rest.env) else rest
  }

  /** Prepending twice is prepending the concatenation. */
  lemma PrependTwice(a: seq<AstNode>, b: seq<AstNode>, rest: Outcome<seq<AstNode>>)
    ensures Prepend(a, Prepend(b, rest)) == Prepend(a + b, rest)
  {
    if rest.result.Ok? {
      assert a + (b + rest.result.value) == (a + b) + rest.result.value;
    }
  }

  /** Prepending nothing changes nothing. */
  lemma PrependNothing(rest: Outcome<seq<AstNode>>)
    ensures Prepend([], rest) == rest
  {
    if rest.result.Ok? {
      assert [] + rest.result.value == rest.result.value;
    }
  }

  /** `handleQuit`: always throws the quit signal, whatever the children. */
  function HandleQuit(env: Env, n: AstNode): (r: Outcome<AstNode>)
    ensures r.result == Throw(QuitError) && r.env == env
  {
    Outcome(Throw(QuitError), env)
  }

  /** `handleBlock`: each child is evaluated in turn (wrapped, as `evaluate` does); the
      value is the last child's, or `1` for an empty block. */
  function HandleBlock<D>(ctx: Context<D>, env: Env, n: AstNode): (r: Outcome<AstNode>)
    ensures n.Operation? && !WritesAny(n.children) ==> r.env == env
    decreases Size(n), 3
  {
    var valid := AssertOperatorValid("block", n);
    if valid.Throw? then Outcome(Throw(valid.exception), env)
    else BlockLoop(ctx, env, n.children, Number(1.0))
  }

  /** The block's loop from the value `out` of the children already run. */
  function BlockLoop<D>(ctx: Context<D>, env: Env, cs: seq<AstNode>, out: AstNode): (r: Outcome<AstNode>)
    ensures !WritesAny(cs) ==> r.env == env
    decreases SizeAll(cs) + 1, 2
  {
    if cs == [] then Outcome(Ok(out), env)
    else
      var first := Evaluate(ctx, env, cs[0]);
      if first.result.Throw? then first
      else BlockLoop(ctx, first.env, cs[1..], first.result.value)
  }

  /** `handleAssign`: the node must be `assign` with two children. The right-hand side is
      evaluated first, so its effects stay even when the left-hand side then turns out not
      to be a variable. On success the variable is bound to the value, which is returned. */
  function HandleAssign<D>(ctx: Context<D>, env: Env, n: AstNode): (r: Outcome<AstNode>)
    ensures AssertOperatorArityValid("assign", 2, n).Throw? ==>
              r == Outcome(Throw(AssertOperatorArityValid("assign", 2, n).exception), env)
    ensures r.result.Ok? ==>
              n.Operation? && |n.children| == 2 && n.children[0].Variable? &&
              r.env == Evaluate(ctx, env, n.children[1]).env[n.children[0].name := r.result.value]
    ensures r.result.Ok? ==> r.result == Evaluate(ctx, env, n.children[1]).result
    ensures AssertOperatorArityValid("assign", 2, n).Ok? && Evaluate(ctx, env, n.children[1]).result.Ok? ==>
              r.result.Ok? == n.children[0].Variable?
    decreases Size(n), 3
  {
    var valid := AssertOperatorArityValid("assign", 2, n);
    if valid.Throw? then Outcome(Throw(valid.exception), env)
    else
      var target := n.children[0];
      var value := Evaluate(ctx, env, n.children[1]);
      if value.result.Throw? then value
      else if !target.Variable? then Outcome(Throw(EvaluationError(AssignTargetNotVariable)), value.env)
      else Outcome(value.result, value.env[target.name := value.result.value])
  }

  // ---------------------------------------------------------------------------------------
  // Properties of evaluation

  /** Wrapping is idempotent, so `evaluate` on a `simplify` node does not simplify twice. */
  lemma WrapIdempotent(n: AstNode)
    ensures WrapNodeWithSimplify(WrapNodeWithSimplify(n)) == WrapNodeWithSimplify(n)
    ensures IsSimplify(n) ==> WrapNodeWithSimplify(n) == n
  {
  }

  /** A number evaluates to itself; a variable evaluates to its simplification, which is the
      variable itself when it is unbound. Neither changes the environment. */
  lemma EvaluateLeaves<D>(ctx: Context<D>, env: Env, v: real, x: string)
    ensures Evaluate(ctx, env, Number(v)) == Outcome(Ok(Number(v)), env)
    ensures Evaluate(ctx, env, Variable(x))
            == Outcome(SimplifyHelper(ctx.ops, env, Variable(x), ctx.fuel), env)
    ensures x !in env ==> Evaluate(ctx, env, Variable(x)) == Outcome(Ok(Variable(x)), env)
  {
    LeafChildEvaluates(ctx, env, Number(v));
    LeafChildEvaluates(ctx, env, Variable(x));
  }

  /** A leaf as the only child evaluates to itself. */
  lemma LeafChildEvaluates<D>(ctx: Context<D>, env: Env, leaf: AstNode)
    requires !leaf.Operation?
    ensures EvalChildren(ctx, env, [leaf]) == Outcome(Ok([leaf]), env)
  {
    assert [leaf][0] == leaf && [leaf][1..] == [];
    assert [leaf] + [] == [leaf];
  }

  /** `quit` and `exit` throw the quit signal whatever their children, without evaluating
      any of them, both as a node and as a whole input. */
  lemma QuitEndsSession<D>(ctx: Context<D>, env: Env, name: string, cs: seq<AstNode>)
    requires name == "quit" || name == "exit"
    ensures EvalNode(ctx, env, Operation(name, cs)) == Outcome(Throw(QuitError), env)
    ensures Evaluate(ctx, env, Operation(name, cs)) == Outcome(Throw(QuitError), env)
  {
    var n := Operation(name, cs);
    assert [n][0] == n && [n][1..] == [];
    assert EvalChildren(ctx, env, [n]) == Outcome(Throw(QuitError), env);
  }

  /** The quit signal is never caught: an operation that is not a control operator throws
      it as soon as one of its children does, and keeps what the children before it
      wrote. */
  lemma QuitPropagates<D>(ctx: Context<D>, env: Env, name: string, before: seq<AstNode>,
                          quit: seq<AstNode>, after: seq<AstNode>)
    requires name !in ControlOperators
    requires EvalChildren(ctx, env, before).result.Ok?
    ensures EvalNode(ctx, env, Operation(name, before + [Operation("quit", quit)] + after))
            == Outcome(Throw(QuitError), EvalChildren(ctx, env, before).env)
  {
    var q := Operation("quit", quit);
    EvalChildrenAppend(ctx, env, before, [q] + after);
    assert before + [q] + after == before + ([q] + after);
    assert ([q] + after)[0] == q && ([q] + after)[1..] == after;
  }

  /** A child that ends in the quit signal, at whatever depth it raised it, ends its parent
      the same way when the parent is not a control operator: the children before it are
      kept, the ones after it never run. */
  lemma QuitPropagatesUp<D>(ctx: Context<D>, env: Env, name: string, before: seq<AstNode>,
                            child: AstNode, after: seq<AstNode>)
    requires name !in ControlOperators
    requires EvalChildren(ctx, env, before).result.Ok?
    requires EvalNode(ctx, EvalChildren(ctx, env, before).env, child).result == Throw(QuitError)
    ensures EvalNode(ctx, env, Operation(name, before + [child] + after))
            == Outcome(Throw(QuitError), EvalNode(ctx, EvalChildren(ctx, env, before).env, child).env)
  {
    EvalChildrenAppend(ctx, env, before, [child] + after);
    assert before + [child] + after == before + ([child] + after);
    assert ([child] + after)[0] == child && ([child] + after)[1..] == after;
  }

  /** `names` as a chain of one-child operations around `inner`, outermost first. */
  function Nest(names: seq<string>, inner: AstNode): AstNode
    decreases |names|
  {
    if names == [] then inner else Operation(names[0], [Nest(names[1..], inner)])
  }

  /** `quit` nested at any depth under operations that are not control operators ends the
      whole evaluation, with the environment untouched. */
  lemma {:induction false} QuitThroughAnyDepth<D>(ctx: Context<D>, env: Env, names: seq<string>,
                                                 quit: seq<AstNode>)
    requires forall i :: 0 <= i < |names| ==> names[i] !in ControlOperators
    ensures EvalNode(ctx, env, Nest(names, Operation("quit", quit))) == Outcome(Throw(QuitError), env)
    decreases |names|
  {
    if names == [] {
      QuitEndsSession(ctx, env, "quit", quit);
    } else {
      var inner := Nest(names[1..], Operation("quit", quit));
      QuitThroughAnyDepth(ctx, env, names[1..], quit);
      assert EvalChildren(ctx, env, []) == Outcome(Ok([]), env);
      QuitPropagatesUp(ctx, env, names[0], [], inner, []);
      assert [] + [inner] + [] == [inner];
    }
  }

  /** Evaluating a concatenation of children is evaluating the first part, then the second
      part in the environment the first part left. */
  lemma {:induction false} EvalChildrenAppend<D>(ctx: Context<D>, env: Env, a: seq<AstNode>, b: seq<AstNode>)
    ensures var first := EvalChildren(ctx, env, a);
            EvalChildren(ctx, env, a + b)
            == if first.result.Throw? then Outcome(Throw(first.result.exception), first.env)
               else Prepend(first.result.value, EvalChildren(ctx, first.env, b))
    decreases |a|
  {
    if a == [] {
      assert a + b == b;
      var rest := EvalChildren(ctx, env, b);
      if rest.result.Ok? {
        assert [] + rest.result.value == rest.result.value;
      }
    } else {
      assert (a + b)[0] == a[0] && (a + b)[1..] == a[1..] + b;
      var head := EvalNode(ctx, env, a[0]);
      if head.result.Ok? {
        EvalChildrenAppend(ctx, head.env, a[1..], b);
        var tail := EvalChildren(ctx, head.env, a[1..]);
        if tail.result.Ok? {
          var rest := EvalChildren(ctx, tail.env, b);
          if rest.result.Ok? {
            assert [head.result.value] + (tail.result.value + rest.result.value)
                == ([head.result.value] + tail.result.value) + rest.result.value;
          }
        }
      }
    }
  }

  /** An operation without a handler is rebuilt from its evaluated children. */
  lemma UnhandledOperationRebuilt<D>(ctx: Context<D>, env: Env, name: string, cs: seq<AstNode>)
    requires name !in ControlOperators && name !in RegularOperators && name !in GuiOperators
    requires EvalChildren(ctx, env, cs).result.Ok?
    ensures EvalNode(ctx, env, Operation(name, cs))
            == Outcome(Ok(Operation(name, EvalChildren(ctx, env, cs).result.value)),
                       EvalChildren(ctx, env, cs).env)
  {
  }

  /** An empty block is `1` and changes nothing. */
  lemma EmptyBlock<D>(ctx: Context<D>, env: Env)
    ensures EvalNode(ctx, env, Operation("block", [])) == Outcome(Ok(Number(1.0)), env)
  {
  }

  /** A block runs its children in sequence: running `a + b` is running `a`, then `b` from
      the environment and the value `a` left. */
  lemma {:induction false} BlockSequence<D>(ctx: Context<D>, env: Env, a: seq<AstNode>, b: seq<AstNode>,
                                            out: AstNode)
    ensures var first := BlockLoop(ctx, env, a, out);
            BlockLoop(ctx, env, a + b, out)
            == if first.result.Throw? then first else BlockLoop(ctx, first.env, b, first.result.value)
    decreases |a|
  {
    if a == [] {
      assert a + b == b;
    } else {
      assert (a + b)[0] == a[0] && (a + b)[1..] == a[1..] + b;
      var head := Evaluate(ctx, env, a[0]);
      if head.result.Ok? {
        BlockSequence(ctx, head.env, a[1..], b, head.result.value);
      }
    }
  }

  /** The value of a block is the value of its last child, evaluated in the environment
      the children before it left. */
  lemma BlockValueIsLast<D>(ctx: Context<D>, env: Env, cs: seq<AstNode>, last: AstNode)
    requires BlockLoop(ctx, env, cs, Number(1.0)).result.Ok?
    ensures EvalNode(ctx, env, Operation("block", cs + [last]))
            == Evaluate(ctx, BlockLoop(ctx, env, cs, Number(1.0)).env, last)
  {
    BlockSequence(ctx, env, cs, [last], Number(1.0));
    var mid := BlockLoop(ctx, env, cs, Number(1.0));
    assert [last][0] == last && [last][1..] == [];
  }

  /** A successful assignment to a variable binds it to the value of the right-hand side
      and returns that value; the right-hand side's own effects are kept. */
  lemma AssignBinds<D>(ctx: Context<D>, env: Env, x: string, e: AstNode)
    requires Evaluate(ctx, env, e).result.Ok?
    ensures var value := Evaluate(ctx, env, e);
            EvalNode(ctx, env, Operation("assign", [Variable(x), e]))
            == Outcome(value.result, value.env[x := value.result.value])
  {
  }

  /** A left-hand side that is not a variable is rejected only after the right-hand side has
      been evaluated, so its effects persist; an `assign` without exactly two children is
      rejected before anything runs. */
  lemma AssignRejects<D>(ctx: Context<D>, env: Env, target: AstNode, e: AstNode, cs: seq<AstNode>)
    requires !target.Variable?
    requires Evaluate(ctx, env, e).result.Ok?
    ensures EvalNode(ctx, env, Operation("assign", [target, e]))
            == Outcome(Throw(EvaluationError(AssignTargetNotVariable)), Evaluate(ctx, env, e).env)
    ensures |cs| != 2 ==>
              EvalNode(ctx, env, Operation("assign", cs)) == Outcome(Throw(EvaluationError(NodeMismatch)), env)
  {
  }

  /** Evaluating `x := 3 + 4` folds the sum, binds `x` to it and returns it. */
  lemma AssignSumExample<D>(ctx: Context<D>, env: Env)
    ensures Evaluate(ctx, env, Operation("assign", [Variable("x"), Operation("+", [Number(3.0), Number(4.0)])]))
            == Outcome(Ok(Number(ctx.ops.add(3.0, 4.0))), env["x" := Number(ctx.ops.add(3.0, 4.0))])
  {
    var sum := Operation("+", [Number(3.0), Number(4.0)]);
    var seven := Number(ctx.ops.add(3.0, 4.0));
    // the operands evaluate to themselves and `+` has no handler
    assert [Number(3.0), Number(4.0)][1..] == [Number(4.0)];
    LeafChildEvaluates(ctx, env, Number(4.0));
    assert [Number(3.0), Number(4.0)][0] == Number(3.0);
    assert [Number(3.0)] + [Number(4.0)] == [Number(3.0), Number(4.0)];
    assert EvalChildren(ctx, env, [Number(3.0), Number(4.0)]) == Outcome(Ok([Number(3.0), Number(4.0)]), env);
    assert EvalNode(ctx, env, sum) == Outcome(Ok(sum), env);
    // the wrapping `simplify` folds it
    assert [sum][0] == sum && [sum][1..] == [];
    assert [sum] + [] == [sum];
    assert EvalChildren(ctx, env, []) == Outcome(Ok([]), env);
    assert EvalChildren(ctx, env, [sum]) == Outcome(Ok([sum]), env);
    FoldsSumDifferenceProduct(ctx.ops, env, "+", 3.0, 4.0, [], ctx.fuel);
    assert [Number(3.0), Number(4.0)] + [] == [Number(3.0), Number(4.0)];
    assert Evaluate(ctx, env, sum) == Outcome(Ok(seven), env);
    // the assignment binds it, and the outer `simplify` leaves a number alone
    var assign := Operation("assign", [Variable("x"), sum]);
    var env1 := env["x" := seven];
    assert EvalNode(ctx, env, assign) == Outcome(Ok(seven), env1);
    assert [assign][0] == assign && [assign][1..] == [];
    assert [seven] + [] == [seven];
    assert EvalChildren(ctx, env, [assign]) == Outcome(Ok([seven]), env1);
  }
}
