# Symbolic calculator core, modelled in Dafny

This project models the evaluation core of a symbolic algebra calculator and the containers
it is built on.

The calculator works on abstract syntax trees. A node is a number, a variable, or a named
operation with ordered children. An interpreter evaluates a tree in three steps:

1. It wraps the tree in `simplify`.
2. It evaluates the children of every operation bottom-up.
3. It hands each rebuilt node to the handler registered for its name.

Handlers belong to one of three registries:

- The control operators `block`, `assign`, `quit` and `exit` evaluate their own children
  through the interpreter. `assign` writes the interpreter's variable dictionary.
- The expression operators `simplify` and `toDouble` only read the variables. `simplify`
  folds constant `+`, `-` and `*` and substitutes bound variables. `toDouble` reduces a
  tree to one number.
- The GUI operators `plot` and `clear` draw.

A tree prints with the fewest parentheses its operator precedences allow.

Three containers are modelled:

- The doubly linked list.
- The array-backed dictionary. It doubles its array when full, and removes a pair by moving
  the last pair into its place.
- The read-only list view, which refuses every change.

The model is organised by module:

- `Exceptions` turns each thrown Java exception into a `Throw` result, which `:-` propagates.
- `AstNodes` models the node and its printer.
- `ExpressionOperators` models `toDouble` and `simplify` as functions.
- `Evaluation` is a functional specification of the interpreter and the control operators.
  It returns the variable environment alongside every result, the error results included.
- `Interpreters` holds the interpreter as a class with mutable `variables` and
  `imageDrawer`. It also holds the control operators as methods. Each method is proved to
  compute exactly what `Evaluation` specifies.
- `LinkedLists` and `Dictionaries` hold the containers as classes over nodes and arrays.
  Their ghost `Contents` is a `seq` and a `map` respectively. Each operation is proved
  against that ghost state.
- `ReadOnlyLists` holds the view.

Several things outside Dafny become parameters:

- **Double arithmetic** (`+ - * /`, `Math.pow`, `Math.sin`, `Math.cos`) is the parameter
  record `FloatOps`.
- **`Double.toString`** is the parameter `doubleText`. The printing of integral values
  through `(long)` and `%d` is modelled exactly, including the saturation at 2^63.
- **The GUI handlers** are the parameter `gui` of the interpreter. The registries are fixed
  to the ones `src/main/java/calculator/Calculator.java:37-51` installs.
- **Variable chains.** The source follows variable bindings with no cycle check, so a
  binding cycle recurses without bound. The model counts bindings followed against a
  `fuel` bound. Running out is the result `Diverges`, and the fuel lemmas show that more
  fuel never changes an answer that did not diverge.

## Model

| member | source | states |
|---|---|---|
| Exceptions.Get | src/main/java/datastructures/concrete/DoubleLinkedList.java:70-72 | an index read succeeds exactly for 0 <= i < size, with the element there; any other index throws IndexOutOfBounds |
| AstNodes.ClassificationExclusive | src/main/java/calculator/ast/AstNode.java:118-138 | every node is exactly one of number, variable and operation |
| AstNodes.GetChildren | src/main/java/calculator/ast/AstNode.java:218-226 | numbers and variables have no children; an operation's children are the ones it was built with |
| AstNodes.GetName | src/main/java/calculator/ast/AstNode.java:140-150 | throws an evaluation error exactly on a number node, otherwise gives the name |
| AstNodes.GetNumericValue | src/main/java/calculator/ast/AstNode.java:152-162 | succeeds exactly on a number node, with its value; otherwise an evaluation error |
| AstNodes.AssertOperatorArityValid | src/main/java/calculator/ast/AstNode.java:85-99 | passes iff the node is an operation with the expected name and child count; a failing number node reports the getName error raised while the message is built, any other failing node a mismatch |
| AstNodes.AssertOperatorValid | src/main/java/calculator/ast/AstNode.java:105-116 | passes iff the node is an operation with the expected name, whatever its child count; same errors as the counted check |
| AstNodes.AssertOperatorValidIgnoresArity | src/main/java/calculator/ast/AstNode.java:85-116 | the check without a count is the check with the node's own child count |
| AstNodes.Rank | src/main/java/calculator/ast/AstNode.java:180-181 | table operators rank 1 to 4 (`^`, `negate`, `*` and `/`, `+` and `-`); all other names rank as the strongest, 0 |
| AstNodes.ChildContext | src/main/java/calculator/ast/AstNode.java:182 | children of a table operator are printed in its own rank; arguments of any other operation in the weakest context |
| AstNodes.LongCast | src/main/java/calculator/ast/AstNode.java:172 | `(long) v` always lies within the 64-bit signed range |
| AstNodes.PrintsAsLongIsCastRoundTrip | src/main/java/calculator/ast/AstNode.java:172 | the test `v == (long) v` holds exactly when the truncating, saturating cast gives `v` back, except at 2^63, which saturates to Long.MAX_VALUE and compares equal after conversion |
| AstNodes.NatTextRoundTrip | src/main/java/calculator/ast/AstNode.java:173 | the decimal digits of a natural number read back as that number |
| AstNodes.LongTextRoundTrip | src/main/java/calculator/ast/AstNode.java:173 | the `%d` text of a long reads back, sign included, as that long |
| AstNodes.IntegralNumberHasNoDecimalPoint | src/main/java/calculator/ast/AstNode.java:170-176 | a number with `v == (long) v` prints as a non-empty text with no decimal point: a minus sign or a digit first, then digits only |
| AstNodes.IntegralNumberText | src/main/java/calculator/ast/AstNode.java:172-173 | an integral number inside the long range prints as its own decimal text |
| AstNodes.SmallNumberTexts | src/main/java/calculator/ast/AstNode.java:172-173 | 1.0 to 4.0 print as `1` to `4` |
| AstNodes.Join | src/main/java/calculator/ast/AstNode.java:206-216 | no items join to the empty string, one item to itself |
| AstNodes.JoinConcat | src/main/java/calculator/ast/AstNode.java:206-216 | joining two non-empty runs of items is joining each and putting one connector between, so the connector stands between every two neighbouring items |
| AstNodes.Render | src/main/java/calculator/ast/AstNode.java:169-204 | printing in any context fails exactly on a tree that holds a `negate` with no children, and then with IndexOutOfBounds |
| AstNodes.RenderAll | src/main/java/calculator/ast/AstNode.java:184-187 | the children print unless one of them holds a bare `negate`, then with IndexOutOfBounds; on success there is one text per child |
| AstNodes.ToString | src/main/java/calculator/ast/AstNode.java:165-167 | the root prints unless it holds a bare `negate`; an operation at the root is never parenthesised: its text is the layout of its children's texts |
| AstNodes.Layout | src/main/java/calculator/ast/AstNode.java:189-196 | laying out an operation fails exactly for a non-infix `negate` with no child texts, with IndexOutOfBounds |
| AstNodes.RenderAllPointwise | src/main/java/calculator/ast/AstNode.java:184-187 | the child list prints iff every child prints, and then holds each child's text in its context at its position |
| AstNodes.ParenthesesExactlyWhenLooser | src/main/java/calculator/ast/AstNode.java:198-200 | an operation prints in any context as its root text, wrapped in parentheses exactly when its rank is looser than the context |
| AstNodes.UnrankedNeverParenthesised | src/main/java/calculator/ast/AstNode.java:180-182 | an operation outside the table is never parenthesised |
| AstNodes.OperationLayout | src/main/java/calculator/ast/AstNode.java:189-196 | infix names join their children with ` name `, `negate` prefixes `-` to its first child, any other name prints as a call with `, `-separated arguments |
| AstNodes.NegateWithoutOperandFails | src/main/java/calculator/ast/AstNode.java:192-193 | printing `negate()` with no child throws IndexOutOfBounds |
| AstNodes.SubstringIsSlice | src/main/java/calculator/ast/AstNode.java:190 | the `contains` test behind the infix layout finds a name exactly when it occurs as a contiguous slice of `-+*/^` |
| AstNodes.SymbolsAreInfix | src/main/java/calculator/ast/AstNode.java:190 | each of `-`, `+`, `*`, `/` and `^` counts as an infix name under the substring test |
| AstNodes.InfixPair | src/main/java/calculator/ast/AstNode.java:190-191 | two operands of an infix name print one space either side of it |
| AstNodes.RenderPair | src/main/java/calculator/ast/AstNode.java:184-187 | two printable children give the list of their two texts |
| AstNodes.PrintSum | src/main/java/calculator/ast/AstNode.java:169-204 | `3 + 4` prints as `3 + 4` |
| AstNodes.PrintVariableSum | src/main/java/calculator/ast/AstNode.java:169-204 | a sum of a variable and a number prints infix with spaces: `x + 1` |
| AstNodes.PrintProductOfSum | src/main/java/calculator/ast/AstNode.java:198-200 | a sum under a product keeps its parentheses: `(3 + 4) * 2` |
| AstNodes.PrintRightNestedDifference | src/main/java/calculator/ast/AstNode.java:198-200 | an equal-rank right operand is not parenthesised, so `1 - (2 - 3)` prints as `1 - 2 - 3` |
| AstNodes.PrintCall | src/main/java/calculator/ast/AstNode.java:195 | call arguments print in the weakest context: `sin(x + 1)` |
| ExpressionOperators.ToDoubleHelper | src/main/java/calculator/ast/operators/ExpressionOperators.java:53-92 | reducing a tree never raises the quit signal |
| ExpressionOperators.HandleToDouble | src/main/java/calculator/ast/operators/ExpressionOperators.java:39-50 | a node that is not `toDouble` with one child fails the structural check; otherwise the result is the number node of the child's reduction, or the reduction's own error |
| ExpressionOperators.ToDoubleVariable | src/main/java/calculator/ast/operators/ExpressionOperators.java:58-63 | an unbound variable is an evaluation error; a bound variable reduces as the node it is bound to |
| ExpressionOperators.ToDoubleOperation | src/main/java/calculator/ast/operators/ExpressionOperators.java:72-87 | a binary operator combines the reductions of its first two children, a unary one maps its first child's reduction, with `negate` as 0 - x; an error in an operand is the error of the whole; an operator with no children throws IndexOutOfBounds |
| ExpressionOperators.ToDoubleUnknownOperation | src/main/java/calculator/ast/operators/ExpressionOperators.java:88-90 | an operation outside the eight known names is an unknown-operation error; conversely that error always comes from such a node reachable in the tree |
| ExpressionOperators.ToDoubleFuelMonotone | src/main/java/calculator/ast/operators/ExpressionOperators.java:58-63 | more fuel never changes a reduction that did not diverge |
| ExpressionOperators.SimplifyHelper | src/main/java/calculator/ast/operators/ExpressionOperators.java:134-170 | simplification never raises the quit signal, and an operation that is not folded to a number keeps its name |
| ExpressionOperators.HandleSimplify | src/main/java/calculator/ast/operators/ExpressionOperators.java:119-132 | a node that is not `simplify` with one child fails the structural check; otherwise the result is the simplification of the child |
| ExpressionOperators.SimplifyLeaves | src/main/java/calculator/ast/operators/ExpressionOperators.java:135-144 | numbers and unbound variables stay as they are; a bound variable becomes the simplification of its binding |
| ExpressionOperators.FoldsSumDifferenceProduct | src/main/java/calculator/ast/operators/ExpressionOperators.java:149-156 | `+`, `-` and `*` whose first two children are numbers fold to the number they compute, any further children dropped |
| ExpressionOperators.NeverFoldsQuotientOrPower | src/main/java/calculator/ast/operators/ExpressionOperators.java:149 | `/` and `^` of two numbers are left unfolded |
| ExpressionOperators.SimplifyOperationShape | src/main/java/calculator/ast/operators/ExpressionOperators.java:158-167 | an unfolded operation keeps its name and its first two children at most, each simplified; with no children it is returned as it is |
| ExpressionOperators.SinglePassLeavesFoldableSums | src/main/java/calculator/ast/operators/ExpressionOperators.java:149-167 | the fold test runs before the children are simplified, so `(1 + 2) + 3` becomes `3 + 3` and `x + 1` with x = 2 becomes `2 + 1` |
| ExpressionOperators.SimplifyFuelMonotone | src/main/java/calculator/ast/operators/ExpressionOperators.java:138-144 | more fuel never changes a simplification that did not diverge |
| ExpressionOperators.SimplifyPreservesValue | src/main/java/calculator/ast/operators/ExpressionOperators.java:149-156 | reducing the simplified tree gives exactly what reducing the original gives, errors included |
| Evaluation.WrapNodeWithSimplify | src/main/java/calculator/Interpreter.java:104-112 | the result is a `simplify` node; a `simplify` node is returned as it is, any other node becomes the only child of a new one |
| Evaluation.WrapIdempotent | src/main/java/calculator/Interpreter.java:104-112 | wrapping twice is wrapping once |
| Evaluation.Evaluate | src/main/java/calculator/Interpreter.java:50-52 | evaluating a tree with no `assign` or GUI operation in it leaves the variables unchanged |
| Evaluation.EvalNode | src/main/java/calculator/Interpreter.java:58-98 | evaluating a node with no `assign` or GUI operation in it leaves the variables unchanged: the dispatcher writes nothing itself |
| Evaluation.EvalChildren | src/main/java/calculator/Interpreter.java:79-82 | a successful child loop gives one result per child, and a loop over non-writing children leaves the variables unchanged |
| Evaluation.EvaluateLeaves | src/main/java/calculator/Interpreter.java:59-64 | a number evaluates to itself; a variable evaluates to its simplification, so an unbound one to itself |
| Evaluation.UnhandledOperationRebuilt | src/main/java/calculator/Interpreter.java:78-93 | an operation in no registry comes back rebuilt from its evaluated children |
| Evaluation.EvalChildrenAppend | src/main/java/calculator/Interpreter.java:80-82 | evaluating children `a + b` is evaluating `a`, then `b` in the variables `a` left, stopping at the first exception |
| Evaluation.QuitPropagates | src/main/java/calculator/Interpreter.java:80-82 | a `quit` among the children of a non-control operation ends the whole evaluation with the quit signal |
| Evaluation.QuitPropagatesUp | src/main/java/calculator/Interpreter.java:80-82 | a child whose evaluation ends in the quit signal, raised at any depth below it, ends its non-control parent the same way, with the variables that child left |
| Evaluation.QuitThroughAnyDepth | src/main/java/calculator/Interpreter.java:80-82 | `quit` nested at any depth under non-control operations ends the whole evaluation with the quit signal, the variables untouched |
| Evaluation.HandleQuit | src/main/java/calculator/ast/operators/ControlOperators.java:16-19 | always the quit signal, with the variables unchanged |
| Evaluation.QuitEndsSession | src/main/java/calculator/ast/operators/ControlOperators.java:16-19 | `quit` and `exit` throw the quit signal whatever their children, which are not evaluated |
| Evaluation.HandleBlock | src/main/java/calculator/ast/operators/ControlOperators.java:27-42 | a block of non-writing children leaves the variables unchanged |
| Evaluation.BlockLoop | src/main/java/calculator/ast/operators/ControlOperators.java:35-37 | a loop over non-writing children leaves the variables unchanged |
| Evaluation.EmptyBlock | src/main/java/calculator/ast/operators/ControlOperators.java:32-41 | an empty block is the number 1 and changes nothing |
| Evaluation.BlockSequence | src/main/java/calculator/ast/operators/ControlOperators.java:35-37 | a block runs `a + b` as `a` followed by `b` from the variables and value `a` left |
| Evaluation.BlockValueIsLast | src/main/java/calculator/ast/operators/ControlOperators.java:39-41 | a block's value is its last child's, evaluated in the variables the earlier children left |
| Evaluation.HandleAssign | src/main/java/calculator/ast/operators/ControlOperators.java:44-64 | a node that is not `assign` with two children fails the structural check before anything runs; a success means the target is a variable, now bound to the returned value of the right-hand side, over the variables the right-hand side left; with a valid node and a right-hand side that evaluates, it succeeds iff the target is a variable |
| Evaluation.AssignBinds | src/main/java/calculator/ast/operators/ControlOperators.java:50-63 | assigning to a variable binds it to the evaluated right-hand side and returns that value |
| Evaluation.AssignRejects | src/main/java/calculator/ast/operators/ControlOperators.java:46-59 | a non-variable target is rejected only after the right-hand side ran, keeping its effects; a wrong child count fails before anything runs |
| Evaluation.AssignSumExample | src/main/java/calculator/ast/operators/ControlOperators.java:44-64 | `x := 3 + 4` binds x to the folded sum and returns it |
| Interpreters.Interpreter.constructor | src/main/java/calculator/Interpreter.java:24-32 | a new interpreter has no variables and no image drawer |
| Interpreters.Interpreter.SetImageDrawer | src/main/java/calculator/Interpreter.java:37-39 | the drawer is replaced; the variables are untouched |
| Interpreters.Interpreter.Evaluate | src/main/java/calculator/Interpreter.java:50-52 | the result and the new variables are exactly those `Evaluation.Evaluate` gives from the old variables |
| Interpreters.Interpreter.EvaluateHelper | src/main/java/calculator/Interpreter.java:58-98 | the result and the new variables are exactly those `Evaluation.EvalNode` gives from the old variables |
| Interpreters.HandleQuit | src/main/java/calculator/ast/operators/ControlOperators.java:16-19 | throws the quit signal and changes nothing |
| Interpreters.HandleBlock | src/main/java/calculator/ast/operators/ControlOperators.java:27-42 | result and new variables are exactly `Evaluation.HandleBlock`'s |
| Interpreters.HandleAssign | src/main/java/calculator/ast/operators/ControlOperators.java:44-64 | result and new variables are exactly `Evaluation.HandleAssign`'s |
| LinkedLists.InsertAt | src/main/java/datastructures/concrete/DoubleLinkedList.java:140-141 | the element lands at the index; the elements before it stay, the ones from it on move up one |
| LinkedLists.RemoveAt | src/main/java/datastructures/concrete/DoubleLinkedList.java:184-185 | the elements before the index stay, the ones after it move down one |
| LinkedLists.DeleteUndoesInsert | src/main/java/datastructures/concrete/DoubleLinkedList.java:140-185 | deleting at an index undoes inserting there |
| LinkedLists.InsertAtSizeAppends | src/main/java/datastructures/concrete/DoubleLinkedList.java:155-158 | inserting at the size appends, as `add` does |
| LinkedLists.FirstIndex | src/main/java/datastructures/concrete/DoubleLinkedList.java:236 | -1 iff absent; otherwise an index holding the item with no earlier occurrence |
| LinkedLists.WrittenIndexOf | src/main/java/datastructures/concrete/DoubleLinkedList.java:238-256 | the written search throws NullPointer on the empty list and finds the first occurrence otherwise |
| LinkedLists.EmptyIndexOfDiscrepancy | src/main/java/datastructures/concrete/DoubleLinkedList.java:238-242 | on the empty list the written search throws where the documented answer is -1 |
| LinkedLists.IndexOfAgreesOnNonEmpty | src/main/java/datastructures/concrete/DoubleLinkedList.java:238-256 | on a non-empty list the written search gives the documented answer |
| LinkedLists.Node.constructor | src/main/java/datastructures/concrete/DoubleLinkedList.java:285-289 | a node holds its data and both links as given |
| LinkedLists.DoubleLinkedList.constructor | src/main/java/datastructures/concrete/DoubleLinkedList.java:23-27 | a new list is valid and empty |
| LinkedLists.DoubleLinkedList.NoRepeats | src/main/java/datastructures/concrete/DoubleLinkedList.java:19-21 | in a list linked front to back with a `back` whose `next` is null, no node occurs twice |
| LinkedLists.DoubleLinkedList.Distinct | src/main/java/datastructures/concrete/DoubleLinkedList.java:19-21 | a node of the list occurs at one index only, so relinking it leaves every other node alone |
| LinkedLists.DoubleLinkedList.Size | src/main/java/datastructures/concrete/DoubleLinkedList.java:260-262 | the number of elements |
| LinkedLists.DoubleLinkedList.Add | src/main/java/datastructures/concrete/DoubleLinkedList.java:31-42 | the element is appended and the list stays valid |
| LinkedLists.DoubleLinkedList.Remove | src/main/java/datastructures/concrete/DoubleLinkedList.java:47-64 | an empty list throws EmptyContainer and is unchanged; otherwise the last element is taken off and returned |
| LinkedLists.DoubleLinkedList.WalkFromFront | src/main/java/datastructures/concrete/DoubleLinkedList.java:75-80 | the forward walk stops on node `index - stop` |
| LinkedLists.DoubleLinkedList.WalkFromBack | src/main/java/datastructures/concrete/DoubleLinkedList.java:84-88 | the backward walk stops on node `index + stop` |
| LinkedLists.DoubleLinkedList.Get | src/main/java/datastructures/concrete/DoubleLinkedList.java:69-91 | the element at the index, or IndexOutOfBounds outside 0 <= index < size, whichever end the walk starts from |
| LinkedLists.DoubleLinkedList.Set | src/main/java/datastructures/concrete/DoubleLinkedList.java:96-138 | exactly the element at the index is replaced; outside the range IndexOutOfBounds and nothing changes |
| LinkedLists.DoubleLinkedList.Insert | src/main/java/datastructures/concrete/DoubleLinkedList.java:143-182 | any index from 0 to the size inserts there, the rest moving up; outside it IndexOutOfBounds and nothing changes |
| LinkedLists.DoubleLinkedList.Delete | src/main/java/datastructures/concrete/DoubleLinkedList.java:187-231 | the element at the index is removed and returned; outside the range IndexOutOfBounds and nothing changes |
| LinkedLists.DoubleLinkedList.PushFront | src/main/java/datastructures/concrete/DoubleLinkedList.java:147-154 | a new first element, the list still valid |
| LinkedLists.DoubleLinkedList.PushBack | src/main/java/datastructures/concrete/DoubleLinkedList.java:155-158 | a new last element, the list still valid |
| LinkedLists.DoubleLinkedList.ReplaceFront | src/main/java/datastructures/concrete/DoubleLinkedList.java:100-110 | the first element replaced, a one-element list included |
| LinkedLists.DoubleLinkedList.ReplaceBack | src/main/java/datastructures/concrete/DoubleLinkedList.java:111-115 | the last element of a list of two or more replaced |
| LinkedLists.DoubleLinkedList.ReplaceAfter | src/main/java/datastructures/concrete/DoubleLinkedList.java:125-126 | the element after the walk's node replaced |
| LinkedLists.DoubleLinkedList.ReplaceBefore | src/main/java/datastructures/concrete/DoubleLinkedList.java:134-135 | the element before the walk's node replaced |
| LinkedLists.DoubleLinkedList.SpliceAfter | src/main/java/datastructures/concrete/DoubleLinkedList.java:168-169 | a new element right after the walk's node |
| LinkedLists.DoubleLinkedList.SpliceBefore | src/main/java/datastructures/concrete/DoubleLinkedList.java:177-178 | a new element right before the walk's node |
| LinkedLists.DoubleLinkedList.PopFront | src/main/java/datastructures/concrete/DoubleLinkedList.java:192-200 | the first element unlinked and returned |
| LinkedLists.DoubleLinkedList.PopBack | src/main/java/datastructures/concrete/DoubleLinkedList.java:201-205 | the last element of a list of two or more unlinked and returned |
| LinkedLists.DoubleLinkedList.UnlinkAfter | src/main/java/datastructures/concrete/DoubleLinkedList.java:214-216 | the element after the walk's node unlinked and returned |
| LinkedLists.DoubleLinkedList.UnlinkBefore | src/main/java/datastructures/concrete/DoubleLinkedList.java:224-226 | the element before the walk's node unlinked and returned |
| LinkedLists.DoubleLinkedList.IndexOfAsWritten | src/main/java/datastructures/concrete/DoubleLinkedList.java:238-256 | the walk-to-`back` search computes the written search: NullPointer on the empty list, the first index otherwise |
| LinkedLists.DoubleLinkedList.IndexOf | src/main/java/datastructures/concrete/DoubleLinkedList.java:238-256 | the first index of the item, or -1 when it is absent, the empty list included |
| LinkedLists.DoubleLinkedList.Contains | src/main/java/datastructures/concrete/DoubleLinkedList.java:266-268 | true iff the item is in the list, the empty list included |
| LinkedLists.DoubleLinkedList.ContainsAsWritten | src/main/java/datastructures/concrete/DoubleLinkedList.java:266-268 | the written `contains` inherits the written search: NullPointer on the empty list, whether the item is in the list otherwise |
| LinkedLists.DoubleLinkedList.Iterator | src/main/java/datastructures/concrete/DoubleLinkedList.java:271-277 | a fresh iterator at the front of this list |
| LinkedLists.DoubleLinkedListIterator.constructor | src/main/java/datastructures/concrete/DoubleLinkedList.java:302-305 | the iterator starts at position 0 |
| LinkedLists.DoubleLinkedListIterator.HasNext | src/main/java/datastructures/concrete/DoubleLinkedList.java:311-313 | true iff elements remain past the position |
| LinkedLists.DoubleLinkedListIterator.Next | src/main/java/datastructures/concrete/DoubleLinkedList.java:322-329 | yields the element at the position and advances; past the end NoSuchElement and no move |
| Dictionaries.ArrayDictionary.constructor | src/main/java/datastructures/concrete/dictionaries/ArrayDictionary.java:17-24 | a new dictionary is empty, over an array of capacity 100 |
| Dictionaries.ArrayDictionary.KeysDistinct | src/main/java/datastructures/concrete/dictionaries/ArrayDictionary.java:78-86 | no key occupies two live slots |
| Dictionaries.ArrayDictionary.Size | src/main/java/datastructures/concrete/dictionaries/ArrayDictionary.java:122-124 | the number of bindings |
| Dictionaries.ArrayDictionary.ContainsKey | src/main/java/datastructures/concrete/dictionaries/ArrayDictionary.java:111-118 | true iff the key is bound |
| Dictionaries.ArrayDictionary.Get | src/main/java/datastructures/concrete/dictionaries/ArrayDictionary.java:50-60 | the bound value, or NoSuchKey for an unbound key |
| Dictionaries.ArrayDictionary.Put | src/main/java/datastructures/concrete/dictionaries/ArrayDictionary.java:65-88 | the key is bound to the value, every other binding kept; the size grows iff the key was new; a full array is doubled first, even for a bound key; every live slot keeps its pair, the bound key's slot with the new value, and a new key goes into the slot just past the old live pairs |
| Dictionaries.ArrayDictionary.Grow | src/main/java/datastructures/concrete/dictionaries/ArrayDictionary.java:67-75 | a fresh array of twice the size holds the same live pairs |
| Dictionaries.ArrayDictionary.Overwrite | src/main/java/datastructures/concrete/dictionaries/ArrayDictionary.java:77-83 | reports whether the key was bound and, if so, rebinds it in place: each live slot holding the key takes the new value, every other slot is unchanged |
| Dictionaries.ArrayDictionary.Append | src/main/java/datastructures/concrete/dictionaries/ArrayDictionary.java:84-87 | a new key goes into the first free slot, just past the live pairs, every other slot unchanged, and the size grows by one |
| Dictionaries.ArrayDictionary.Remove | src/main/java/datastructures/concrete/dictionaries/ArrayDictionary.java:94-107 | a bound key is removed and its value returned, every other binding kept: the slot that held it now holds the last live pair and every other slot is unchanged; an unbound key throws NoSuchKey and changes nothing, the array included |
| Dictionaries.ArrayDictionary.FillHole | src/main/java/datastructures/concrete/dictionaries/ArrayDictionary.java:100-102 | the last live pair fills the hole: the array is the old one with slot `i` overwritten by the old last live pair, the binding that was in the slot is gone, every other binding kept, the size one less |
| ReadOnlyLists.ReadOnlyList.constructor | src/main/java/datastructures/concrete/ReadOnlyList.java:21-23 | the view wraps the given list |
| ReadOnlyLists.ReadOnlyList.Add | src/main/java/datastructures/concrete/ReadOnlyList.java:28-31 | refused with UnsupportedOperation, changing nothing |
| ReadOnlyLists.ReadOnlyList.Remove | src/main/java/datastructures/concrete/ReadOnlyList.java:36-39 | refused with UnsupportedOperation, changing nothing |
| ReadOnlyLists.ReadOnlyList.Set | src/main/java/datastructures/concrete/ReadOnlyList.java:49-52 | refused with UnsupportedOperation, changing nothing |
| ReadOnlyLists.ReadOnlyList.Insert | src/main/java/datastructures/concrete/ReadOnlyList.java:57-60 | refused with UnsupportedOperation, changing nothing |
| ReadOnlyLists.ReadOnlyList.Delete | src/main/java/datastructures/concrete/ReadOnlyList.java:65-68 | refused with UnsupportedOperation, changing nothing |
| ReadOnlyLists.ReadOnlyList.Get | src/main/java/datastructures/concrete/ReadOnlyList.java:41-44 | the wrapped list's element at the index, or its out-of-range error |
| ReadOnlyLists.ReadOnlyList.IndexOf | src/main/java/datastructures/concrete/ReadOnlyList.java:70-73 | the wrapped list's first index of the item, -1 iff absent |
| ReadOnlyLists.ReadOnlyList.Size | src/main/java/datastructures/concrete/ReadOnlyList.java:75-78 | the wrapped list's size |
| ReadOnlyLists.ReadOnlyList.Contains | src/main/java/datastructures/concrete/ReadOnlyList.java:80-83 | true iff the wrapped list holds the item |
| ReadOnlyLists.ReadOnlyList.Iterator | src/main/java/datastructures/concrete/ReadOnlyList.java:85-89 | a fresh iterator over the wrapped list, from its front |
| ReadOnlyLists.ReadOnlyIterator.constructor | src/main/java/datastructures/concrete/ReadOnlyList.java:88 | wraps the wrapped list's iterator |
| ReadOnlyLists.ReadOnlyIterator.HasNext | src/main/java/datastructures/concrete/ReadOnlyList.java:90-93 | true iff the wrapped list has elements past the position |
| ReadOnlyLists.ReadOnlyIterator.Next | src/main/java/datastructures/concrete/ReadOnlyList.java:95-98 | the wrapped list's next element, advancing; past the end NoSuchElement |
| ReadOnlyLists.ReadOnlyIterator.Remove | src/main/java/datastructures/concrete/ReadOnlyList.java:100-103 | refused with UnsupportedOperation |
| ReadOnlyLists.OwnerAddShowsThroughView | src/main/java/datastructures/concrete/ReadOnlyList.java:7-13 | the view is not a copy: an element added through the wrapped list itself appears at the end of the view |

## Left out

- The parser, the command-line loop, `Calculator.evaluate` and the GUI window are not part of
  this model. `GuiOperators` (`plot`, `clear`) is not part of this model either: its
  handlers are the parameter `gui`.
- Floating point is not modelled. Every double operation is a parameter function on `real`,
  and nothing is proved about the numbers computed. `Double.toString` is the parameter
  `doubleText`.
- A node's number is kept as a value. Java stores the text of the double and parses it back
  on every read, and that round trip is the identity.
- ExpressionOperators.ToDoubleHelper, ExpressionOperators.SimplifyHelper: a chain of variable
  bindings longer than the `fuel` bound ends in `Diverges`. The source instead recurses
  until the stack overflows on a cyclic binding.
- Interpreters.Interpreter.EvaluateHelper: the `AssertionError` branch for a node of no
  known kind is left out, because every node is a number, a variable or an operation.
- The registries are fixed sets of names rather than dictionaries the interpreter looks
  up. The variable dictionary is the map `variables`, not an `ArrayDictionary` object. The
  control and expression operators use it only through `put`, `get` and `containsKey`, which
  the map models exactly. `handlePlot` also calls `remove` on it
  (`src/main/java/calculator/ast/operators/GuiOperators.java:104`); that handler is the
  parameter `gui`, which may return any map of variables, so this use is covered too.
- `size` fields are unbounded integers. Java's 32-bit `int` overflow of a list or dictionary
  with more than 2^31 - 1 elements is not modelled.
- Element and key equality is Dafny `==`. Java uses `Objects.equals`, which is reference or
  user-defined equality and accepts null items.
- Dictionaries.ArrayDictionary.Put, Dictionaries.ArrayDictionary.Overwrite: a pair is a
  value. Java's `pairs[i].value = value` mutates a shared `Pair` object. The only other
  reference to such an object is the stale slot that `remove` leaves past `size`, which is
  never read.
- LinkedLists.DoubleLinkedList.Contains: it answers false on the empty list, where the
  written `contains` throws NullPointer; `ContainsAsWritten` models the written behaviour
  (see Findings).
- ReadOnlyLists.ReadOnlyList.IndexOf: it delegates to the corrected `IndexOf`, so on an
  empty wrapped list it answers -1 where the written view throws NullPointer through
  `indexOf` (see Findings).
- ReadOnlyLists.ReadOnlyList.Contains: it delegates to the corrected `Contains`, so on an
  empty wrapped list it answers false where the written view throws NullPointer (see
  Findings).
- The iterators are proved only while their list is not changed. Java's iterator over a
  list changed mid-iteration is not modelled.
- Interface types `IList` and `IDictionary` are not part of this model. The read-only view
  wraps the doubly linked list, the only list implementation in the core.

## Findings

| source | as written | input that shows it | evidently intended | confidence | as-written member | corrected member |
|---|---|---|---|---|---|---|
| src/main/java/datastructures/concrete/DoubleLinkedList.java:238-256 | `indexOf` starts from `front` and calls `curr.equals(back)` before any null check. On an empty list it throws a NullPointerException, and so does `contains` (lines 266-268), which calls it. | `indexOf(x)` or `contains(x)` on a new, empty list | -1 and false: the item is not in the list | high; not executed | LinkedLists.DoubleLinkedList.IndexOfAsWritten | LinkedLists.DoubleLinkedList.IndexOf |
| src/main/java/datastructures/concrete/DoubleLinkedList.java:266-268 | `contains` is `indexOf(other) != -1`, so it inherits the NullPointerException of `indexOf` on an empty list. | `contains(x)` on a new, empty list | false | high; not executed | LinkedLists.DoubleLinkedList.ContainsAsWritten | LinkedLists.DoubleLinkedList.Contains |
