/** The abstract syntax tree of the calculator: an immutable node that is a number, a
    variable or a named operation with ordered children, with its checked accessors, the
    structural check every handler starts with, and the precedence-aware printer. */
module AstNodes {
  import opened Exceptions

  /** A node of the tree. Java stores a number as the text of its double and parses it
      back on every read; that round trip is the identity, so the value is kept directly.
      Numbers and variables have no children field: their child list is always empty. */
  datatype AstNode =
    | Number(value: real)
    | Variable(name: string)
    | Operation(name: string, children: seq<AstNode>)

  /** The number of nodes in a tree, used as a termination measure. */
  function Size(n: AstNode): (r: nat)
    ensures r >= 1
    decreases n, 1
  {
    match n
    case Operation(_, cs) => 1 + SizeAll(cs)
    case _ => 1
  }

  function SizeAll(cs: seq<AstNode>): (r: nat)
    ensures forall i :: 0 <= i < |cs| ==> Size(cs[i]) <= r
    decreases cs, 0
  {
    if cs == [] then 0 else Size(cs[0]) + SizeAll(cs[1..])
  }

  // ---------------------------------------------------------------------------------------
  // Classification and accessors

  predicate IsNumber(n: AstNode) { n.Number? }
  predicate IsVariable(n: AstNode) { n.Variable? }
  predicate IsOperation(n: AstNode) { n.Operation? }

  /** Every node is exactly one of number, variable and operation. */
  lemma ClassificationExclusive(n: AstNode)
    ensures IsNumber(n) || IsVariable(n) || IsOperation(n)
    ensures !(IsNumber(n) && IsVariable(n))
    ensures !(IsNumber(n) && IsOperation(n))
    ensures !(IsVariable(n) && IsOperation(n))
  {
  }

  /** The read-only child list: empty for numbers and variables. */
  function GetChildren(n: AstNode): (r: seq<AstNode>)
    ensures !IsOperation(n) ==> r == []
    ensures IsOperation(n) ==> r == n.children
  {
    if n.Operation? then n.children else []
  }

  /** The variable or operation name; a number node has none. */
  function GetName(n: AstNode): (r: Result<string>)
    ensures r.Throw? <==> IsNumber(n)
    ensures r.Throw? ==> r.exception == EvaluationError(NameOfNumber)
    ensures r.Ok? ==> r.value == n.name
  {
    if n.Number? then Throw(EvaluationError(NameOfNumber)) else Ok(n.name)
  }

  /** The numeric value; only a number node has one. */
  function GetNumericValue(n: AstNode): (r: Result<real>)
    ensures r.Ok? <==> IsNumber(n)
    ensures r.Ok? ==> r.value == n.value
    ensures r.Throw? ==> r.exception == EvaluationError(ValueOfNonNumber)
  {
    if n.Number? then Ok(n.value) else Throw(EvaluationError(ValueOfNonNumber))
  }

  /** The check with an expected child count. When the check fails, building the message
      calls getName() first, so a number node fails with that accessor's error instead. */
  function AssertOperatorArityValid(name: string, numChildren: int, n: AstNode): (r: Result<()>)
    ensures r.Ok? <==> IsOperation(n) && n.name == name && |n.children| == numChildren
    ensures r.Throw? && IsNumber(n) ==> r.exception == EvaluationError(NameOfNumber)
    ensures r.Throw? && !IsNumber(n) ==> r.exception == EvaluationError(NodeMismatch)
  {
    if n.Operation? && n.name == name && |n.children| == numChildren then Ok(())
    else if n.Number? then Throw(EvaluationError(NameOfNumber))
    else Throw(EvaluationError(NodeMismatch))
  }

  /** The check without a child count: any arity is accepted. */
  function AssertOperatorValid(name: string, n: AstNode): (r: Result<()>)
    ensures r.Ok? <==> IsOperation(n) && n.name == name
    ensures r.Throw? && IsNumber(n) ==> r.exception == EvaluationError(NameOfNumber)
    ensures r.Throw? && !IsNumber(n) ==> r.exception == EvaluationError(NodeMismatch)
  {
    if n.Operation? && n.name == name then Ok(())
    else if n.Number? then Throw(EvaluationError(NameOfNumber))
    else Throw(EvaluationError(NodeMismatch))
  }

  /** The check without a count is the check with the node's own count. */
  lemma AssertOperatorValidIgnoresArity(name: string, n: AstNode)
    ensures AssertOperatorValid(name, n) == AssertOperatorArityValid(name, |GetChildren(n)|, n)
  {
  }

  // ---------------------------------------------------------------------------------------
  // Precedence

  const StrongestPrecedence: int := 0
  /** Integer.MAX_VALUE: the context of the root and of function-call arguments. */
  const WeakestPrecedence: int := 0x7fff_ffff

  /** Lower ranks bind tighter. */
  const PrecedenceTable: map<string, int> :=
    map["^" := 1, "negate" := 2, "*" := 3, "/" := 3, "+" := 4, "-" := 4]

  /** The rank of an operation: its table entry, or the strongest rank when it has none. */
  function Rank(name: string): (r: int)
    ensures name in PrecedenceTable ==> 1 <= r <= 4
    ensures name !in PrecedenceTable ==> r == StrongestPrecedence
  {
    if name in PrecedenceTable then PrecedenceTable[name] else StrongestPrecedence
  }

  /** The context handed to the children: the operator's own rank for table operators, the
      weakest context for function-call arguments. */
  function ChildContext(name: string): (r: int)
    ensures name in PrecedenceTable ==> r == Rank(name)
    ensures name !in PrecedenceTable ==> r == WeakestPrecedence
  {
    if name in PrecedenceTable then PrecedenceTable[name] else WeakestPrecedence
  }

  // ---------------------------------------------------------------------------------------
  // Number text

  const LongMin: int := -0x8000_0000_0000_0000
  const LongMax: int := 0x7fff_ffff_ffff_ffff

  /** Java's `(long) v`: truncation toward zero, saturating at the ends of the long range. */
  function LongCast(v: real): (r: int)
    ensures LongMin <= r <= LongMax
  {
    var t := if v >= 0.0 then v.Floor else -((-v).Floor);
    if t < LongMin then LongMin else if t > LongMax then LongMax else t
  }

  /** Whether `v == (long) v` holds in Java, where the long is converted back to a double.
      For a double `v` this holds exactly for the integral values from -2^63 up to 2^63
      inclusive: 2^63 saturates to Long.MAX_VALUE, which converts back to 2^63. */
  predicate PrintsAsLong(v: real) {
    v == v.Floor as real && LongMin as real <= v <= (LongMax + 1) as real
  }

  function DigitChar(d: nat): (c: char)
    requires d < 10
    ensures '0' <= c <= '9'
    ensures c as int - '0' as int == d
  {
    "0123456789"[d]
  }

  /** The decimal digits of `n`, without leading zeros. */
  function NatText(n: nat): (s: string)
    decreases n
  {
    if n < 10 then [DigitChar(n)] else NatText(n / 10) + [DigitChar(n % 10)]
  }

  /** `String.format("%d", i)`. */
  function LongText(i: int): string {
    if i < 0 then "-" + NatText(-i) else NatText(i)
  }

  /** The text of a number node: integral values through `(long)` and `%d`, the others through
      Java's `Double.toString`, which `doubleText` stands for. */
  function NumberText(v: real, doubleText: real -> string): string {
    if PrintsAsLong(v) then LongText(LongCast(v)) else doubleText(v)
  }

  /** The value of a text of decimal digits, most significant first: the reading that
      `Long.parseLong` gives a well-formed `%d` text. */
  function DigitsValue(s: string): int
    decreases |s|
  {
    if s == [] then 0 else DigitsValue(s[..|s| - 1]) * 10 + (s[|s| - 1] as int - '0' as int)
  }

  /** The value of an optional minus sign followed by digits. */
  function ParseLong(s: string): int {
    if s != [] && s[0] == '-' then -DigitsValue(s[1..]) else DigitsValue(s)
  }

  lemma {:induction false} NatTextDigits(n: nat)
    ensures |NatText(n)| >= 1
    ensures forall k :: 0 <= k < |NatText(n)| ==> '0' <= NatText(n)[k] <= '9'
    decreases n
  {
    if n >= 10 {
      NatTextDigits(n / 10);
    }
  }

  /** Reading the digits of `n` back gives `n`. */
  lemma {:induction false} NatTextRoundTrip(n: nat)
    ensures DigitsValue(NatText(n)) == n
    decreases n
  {
    if n >= 10 {
      NatTextRoundTrip(n / 10);
      var s := NatText(n);
      assert s[..|s| - 1] == NatText(n / 10);
      assert s[|s| - 1] == DigitChar(n % 10);
    }
  }

  /** `%d` loses nothing: the text of a long reads back as that long. */
  lemma LongTextRoundTrip(i: int)
    ensures ParseLong(LongText(i)) == i
  {
    if i < 0 {
      NatTextRoundTrip(-i);
      assert LongText(i)[1..] == NatText(-i);
    } else {
      NatTextRoundTrip(i);
      NatTextDigits(i);
    }
  }

  /** `v == (long) v` compares `v` with its truncating, saturating cast converted back:
      it holds exactly when the cast gives `v` back, except at 2^63, which saturates to
      Long.MAX_VALUE and converts back to 2^63. */
  lemma PrintsAsLongIsCastRoundTrip(v: real)
    ensures PrintsAsLong(v) && v != (LongMax + 1) as real ==> LongCast(v) as real == v
    ensures PrintsAsLong(v) && v == (LongMax + 1) as real ==> LongCast(v) == LongMax
    ensures !PrintsAsLong(v) ==> LongCast(v) as real != v
  {
  }

  /** An integral number prints as an optional minus sign followed by digits: there is no
      decimal point. */
  lemma IntegralNumberHasNoDecimalPoint(v: real, doubleText: real -> string)
    requires PrintsAsLong(v)
    ensures '.' !in NumberText(v, doubleText)
    ensures |NumberText(v, doubleText)| >= 1
    ensures NumberText(v, doubleText)[0] == '-' || '0' <= NumberText(v, doubleText)[0] <= '9'
    ensures forall k :: 1 <= k < |NumberText(v, doubleText)| ==>
              '0' <= NumberText(v, doubleText)[k] <= '9'
  {
    var i := LongCast(v);
    if i < 0 {
      NatTextDigits(-i);
      assert NumberText(v, doubleText) == "-" + NatText(-i);
    } else {
      NatTextDigits(i);
    }
  }

  /** Inside the long range an integral number prints as its own decimal digits. */
  lemma IntegralNumberText(v: real, doubleText: real -> string)
    requires v == v.Floor as real && LongMin as real <= v <= LongMax as real
    ensures NumberText(v, doubleText) == LongText(v.Floor)
  {
  }

  // ---------------------------------------------------------------------------------------
  // Printing

  // `"-+*/^".contains(name)`: the names printed infix, including the empty name.
  predicate IsInfixName(name: string) {
    IsSubstring(name, "-+*/^")
  }

  predicate IsSubstring(part: string, whole: string)
    decreases whole
  {
    part <= whole || (whole != [] && IsSubstring(part, whole[1..]))
  }

  /** `part` occurs in `whole` starting at index `i`. */
  predicate OccursAt(part: string, whole: string, i: int) {
    0 <= i <= |whole| - |part| && whole[i..i + |part|] == part
  }

  /** The substring test finds `part` exactly when it occurs as a contiguous slice of
      `whole`. */
  lemma {:induction false} SubstringIsSlice(part: string, whole: string)
    ensures IsSubstring(part, whole) <==> exists i :: OccursAt(part, whole, i)
    decreases whole
  {
    if whole == [] {
      if IsSubstring(part, whole) {
        assert OccursAt(part, whole, 0);
      }
    } else {
      SubstringIsSlice(part, whole[1..]);
      if IsSubstring(part, whole) {
        if part <= whole {
          assert OccursAt(part, whole, 0);
        } else {
          var j :| OccursAt(part, whole[1..], j);
          assert whole[1..][j..j + |part|] == whole[j + 1..j + 1 + |part|];
          assert OccursAt(part, whole, j + 1);
        }
      }
      if exists i :: OccursAt(part, whole, i) {
        var i :| OccursAt(part, whole, i);
        if i > 0 {
          assert whole[1..][i - 1..i - 1 + |part|] == whole[i..i + |part|];
          assert OccursAt(part, whole[1..], i - 1);
        } else {
          assert part <= whole;
        }
      }
    }
  }

  /** The items separated by `sep`; the empty string for no items. */
  function Join(sep: string, items: seq<string>): (r: string)
    ensures items == [] ==> r == ""
    ensures |items| == 1 ==> r == items[0]
    decreases |items|
  {
    if items == [] then "" else if |items| == 1 then items[0]
    else Join(sep, items[..|items| - 1]) + sep + items[|items| - 1]
  }

  /** Joining two non-empty runs of items puts one separator between their joins, so the
      separator goes between every two neighbouring items. */
  lemma {:induction false} JoinConcat(sep: string, a: seq<string>, b: seq<string>)
    requires a != [] && b != []
    ensures Join(sep, a + b) == Join(sep, a) + sep + Join(sep, b)
    decreases |b|
  {
    var ab := a + b;
    var last := b[|b| - 1];
    var init := b[..|b| - 1];
    assert ab[..|ab| - 1] == a + init;
    assert ab[|ab| - 1] == last;
    assert Join(sep, ab) == Join(sep, a + init) + sep + last;
    if |b| == 1 {
      assert a + init == a;
    } else {
      JoinConcat(sep, a, init);
      assert Join(sep, b) == Join(sep, init) + sep + last;
      assert Join(sep, a) + sep + Join(sep, init) + sep + last
          == Join(sep, a) + sep + (Join(sep, init) + sep + last);
    }
  }

  /** The text of an operation from the texts of its children; `negate` without children
      fails on `childrenStrings.get(0)`. */
  function Layout(name: string, items: seq<string>): (r: Result<string>)
    ensures r.Throw? <==> !IsInfixName(name) && name == "negate" && items == []
    ensures r.Throw? ==> r.exception == IndexOutOfBounds
  {
    if IsInfixName(name) then Ok(Join(" " + name + " ", items))
    else if name == "negate" then
      var first :- Get(items, 0);
      Ok("-" + first)
    else Ok(name + "(" + Join(", ", items) + ")")
  }

  function Parenthesised(s: string): string {
    "(" + s + ")"
  }

  /** Whether the tree holds a `negate` with no children, the one node the printer cannot
      lay out. */
  predicate HasBareNegate(n: AstNode)
    decreases n
  {
    n.Operation? &&
    ((n.name == "negate" && n.children == []) || exists c :: c in n.children && HasBareNegate(c))
  }

  /** `toString(parentPrecedenceLevel)`: every child is printed before the layout is chosen,
      so an error anywhere below propagates. Printing fails exactly on a tree holding a
      bare `negate`, and then with the index error of `childrenStrings.get(0)`. */
  function Render(n: AstNode, parent: int, doubleText: real -> string): (r: Result<string>)
    ensures r.Throw? <==> HasBareNegate(n)
    ensures r.Throw? ==> r.exception == IndexOutOfBounds
    decreases n, 1
  {
    match n
    case Number(v) => Ok(NumberText(v, doubleText))
    case Variable(x) => Ok(x)
    case Operation(name, cs) =>
      NotSubstringByFirstChar("negate", "-+*/^");
      var items :- RenderAll(cs, ChildContext(name), doubleText);
      var out :- Layout(name, items);
      Ok(if Rank(name) > parent then Parenthesised(out) else out)
  }

  /** The children printed one by one in the same context; the first failure stops. */
  function RenderAll(cs: seq<AstNode>, context: int, doubleText: real -> string): (r: Result<seq<string>>)
    ensures r.Throw? <==> exists c :: c in cs && HasBareNegate(c)
    ensures r.Throw? ==> r.exception == IndexOutOfBounds
    ensures r.Ok? ==> |r.value| == |cs|
    decreases cs, 0
  {
    if cs == [] then Ok([])
    else
      assert cs[0] in cs && forall c :: c in cs[1..] ==> c in cs;
      assert forall c :: c in cs ==> c == cs[0] || c in cs[1..];
      var first :- Render(cs[0], context, doubleText);
      var rest :- RenderAll(cs[1..], context, doubleText);
      Ok([first] + rest)
  }

  /** `toString()`: the root is printed in the weakest context, so it is never
      parenthesised. */
  function ToString(n: AstNode, doubleText: real -> string): (r: Result<string>)
    ensures r.Throw? <==> HasBareNegate(n)
    ensures r.Throw? ==> r.exception == IndexOutOfBounds
    ensures r.Ok? && n.Operation? ==>
              r == Layout(n.name, RenderAll(n.children, ChildContext(n.name), doubleText).value)
  {
    Render(n, WeakestPrecedence, doubleText)
  }

  // ---------------------------------------------------------------------------------------
  // Properties of the printer

  /** Children are printed one by one in the given context: the list succeeds iff every
      child does, and then holds each child's text at its position. */
  lemma {:induction false} RenderAllPointwise(cs: seq<AstNode>, context: int, doubleText: real -> string)
    ensures RenderAll(cs, context, doubleText).Ok? <==>
              forall i :: 0 <= i < |cs| ==> Render(cs[i], context, doubleText).Ok?
    ensures RenderAll(cs, context, doubleText).Ok? ==>
              |RenderAll(cs, context, doubleText).value| == |cs| &&
              forall i :: 0 <= i < |cs| ==>
                RenderAll(cs, context, doubleText).value[i] == Render(cs[i], context, doubleText).value
    decreases cs
  {
    if cs != [] {
      RenderAllPointwise(cs[1..], context, doubleText);
      assert forall i :: 1 <= i < |cs| ==> cs[i] == cs[1..][i - 1];
    }
  }

  /** An operation printed in any context is its root text, wrapped in parentheses exactly
      when its rank is looser than the context. */
  lemma ParenthesesExactlyWhenLooser(n: AstNode, parent: int, doubleText: real -> string)
    requires IsOperation(n)
    ensures ToString(n, doubleText).Ok? <==> Render(n, parent, doubleText).Ok?
    ensures ToString(n, doubleText).Ok? ==>
              Render(n, parent, doubleText).value ==
                if Rank(n.name) > parent then Parenthesised(ToString(n, doubleText).value)
                else ToString(n, doubleText).value
  {
  }

  /** The root is never parenthesised, and neither is an operation outside the table, in
      any context a parent can give. */
  lemma UnrankedNeverParenthesised(n: AstNode, parent: int, doubleText: real -> string)
    requires IsOperation(n) && n.name !in PrecedenceTable && parent >= StrongestPrecedence
    ensures Render(n, parent, doubleText) == ToString(n, doubleText)
  {
  }

  // The three layouts of an operation, in terms of its children's own texts: infix for
  // the names inside "-+*/^", a prefix minus for negate, a call otherwise. Children of a
  // table operator are printed in its rank, arguments of a call in the weakest context.
  lemma OperationLayout(name: string, cs: seq<AstNode>, doubleText: real -> string)
    requires forall i :: 0 <= i < |cs| ==> Render(cs[i], ChildContext(name), doubleText).Ok?
    requires name == "negate" ==> cs != []
    ensures var items := seq(|cs|, i requires 0 <= i < |cs| => Render(cs[i], ChildContext(name), doubleText).value);
            ToString(Operation(name, cs), doubleText) ==
              if IsInfixName(name) then Ok(Join(" " + name + " ", items))
              else if name == "negate" then Ok("-" + items[0])
              else Ok(name + "(" + Join(", ", items) + ")")
  {
    RenderAllPointwise(cs, ChildContext(name), doubleText);
    var items := seq(|cs|, i requires 0 <= i < |cs| => Render(cs[i], ChildContext(name), doubleText).value);
    assert RenderAll(cs, ChildContext(name), doubleText).value == items;
  }

  /** A name that starts with a character outside the operator symbols is never infix. */
  lemma {:induction false} NotSubstringByFirstChar(part: string, whole: string)
    requires part != [] && part[0] !in whole
    ensures !IsSubstring(part, whole)
    decreases whole
  {
    if whole != [] {
      NotSubstringByFirstChar(part, whole[1..]);
    }
  }

  /** A one-character name that is an operator symbol is infix. */
  lemma {:induction false} SymbolIsSubstring(c: char, whole: string)
    requires c in whole
    ensures IsSubstring([c], whole)
    decreases whole
  {
    if whole[0] != c {
      SymbolIsSubstring(c, whole[1..]);
    }
  }

  /** Printing fails on a `negate` with no children. */
  lemma NegateWithoutOperandFails(doubleText: real -> string)
    ensures ToString(Operation("negate", []), doubleText) == Throw(IndexOutOfBounds)
  {
    NotSubstringByFirstChar("negate", "-+*/^");
  }

  lemma SmallNumberTexts(doubleText: real -> string)
    ensures NumberText(1.0, doubleText) == "1" && NumberText(2.0, doubleText) == "2"
    ensures NumberText(3.0, doubleText) == "3" && NumberText(4.0, doubleText) == "4"
  {
  }

  /** Two children print as the pair of their texts. */
  lemma RenderPair(a: AstNode, b: AstNode, context: int, doubleText: real -> string)
    requires Render(a, context, doubleText).Ok? && Render(b, context, doubleText).Ok?
    ensures RenderAll([a, b], context, doubleText)
            == Ok([Render(a, context, doubleText).value, Render(b, context, doubleText).value])
  {
    RenderAllPointwise([a, b], context, doubleText);
    var items := RenderAll([a, b], context, doubleText).value;
    assert items == [items[0], items[1]];
  }

  /** Each of the five operator symbols on its own is an infix name. */
  lemma SymbolsAreInfix()
    ensures IsInfixName("-") && IsInfixName("+") && IsInfixName("*")
    ensures IsInfixName("/") && IsInfixName("^")
  {
    SymbolIsSubstring('-', "-+*/^");
    SymbolIsSubstring('+', "-+*/^");
    SymbolIsSubstring('*', "-+*/^");
    SymbolIsSubstring('/', "-+*/^");
    SymbolIsSubstring('^', "-+*/^");
    assert ['-'] == "-" && ['+'] == "+" && ['*'] == "*" && ['/'] == "/" && ['^'] == "^";
  }

  /** Two operands of an infix name print on either side of it, one space apart. */
  lemma InfixPair(name: string, x: string, y: string)
    requires IsInfixName(name)
    ensures Layout(name, [x, y]) == Ok(x + " " + name + " " + y)
  {
    assert [x, y][..1] == [x];
    assert Join(" " + name + " ", [x, y]) == x + (" " + name + " ") + y;
    assert x + (" " + name + " ") + y == x + " " + name + " " + y;
  }

  /** `3 + 4` prints without parentheses. */
  lemma PrintSum(doubleText: real -> string)
    ensures ToString(Operation("+", [Number(3.0), Number(4.0)]), doubleText) == Ok("3 + 4")
  {
    SymbolsAreInfix();
    SmallNumberTexts(doubleText);
    RenderPair(Number(3.0), Number(4.0), 4, doubleText);
    InfixPair("+", "3", "4");
    assert "3" + " " + "+" + " " + "4" == "3 + 4";
  }

  /** `(3 + 4) * 2` keeps the looser sum in parentheses. */
  lemma PrintProductOfSum(doubleText: real -> string)
    ensures ToString(Operation("*", [Operation("+", [Number(3.0), Number(4.0)]), Number(2.0)]), doubleText)
            == Ok("(3 + 4) * 2")
  {
    SymbolsAreInfix();
    SmallNumberTexts(doubleText);
    RenderPair(Number(3.0), Number(4.0), 4, doubleText);
    InfixPair("+", "3", "4");
    assert "3" + " " + "+" + " " + "4" == "3 + 4";
    var sum := Operation("+", [Number(3.0), Number(4.0)]);
    assert "(" + "3 + 4" + ")" == "(3 + 4)";
    assert Render(sum, 3, doubleText) == Ok("(3 + 4)");
    RenderPair(sum, Number(2.0), 3, doubleText);
    InfixPair("*", "(3 + 4)", "2");
    assert "(3 + 4)" + " " + "*" + " " + "2" == "(3 + 4) * 2";
  }

  /** An equal-rank child is not parenthesised on either side: `1 - (2 - 3)` prints as
      `1 - 2 - 3`. */
  lemma PrintRightNestedDifference(doubleText: real -> string)
    ensures ToString(Operation("-", [Number(1.0), Operation("-", [Number(2.0), Number(3.0)])]), doubleText)
            == Ok("1 - 2 - 3")
  {
    SymbolsAreInfix();
    SmallNumberTexts(doubleText);
    RenderPair(Number(2.0), Number(3.0), 4, doubleText);
    InfixPair("-", "2", "3");
    assert "2" + " " + "-" + " " + "3" == "2 - 3";
    var inner := Operation("-", [Number(2.0), Number(3.0)]);
    assert Render(inner, 4, doubleText) == Ok("2 - 3");
    RenderPair(Number(1.0), inner, 4, doubleText);
    InfixPair("-", "1", "2 - 3");
    assert "1" + " " + "-" + " " + "2 - 3" == "1 - 2 - 3";
  }

  /** A variable and a number in a sum: `x + 1`. */
  lemma PrintVariableSum(doubleText: real -> string)
    ensures ToString(Operation("+", [Variable("x"), Number(1.0)]), doubleText) == Ok("x + 1")
  {
    SymbolsAreInfix();
    SmallNumberTexts(doubleText);
    RenderPair(Variable("x"), Number(1.0), 4, doubleText);
    InfixPair("+", "x", "1");
    assert "x" + " " + "+" + " " + "1" == "x + 1";
  }

  /** A call's arguments are printed in the weakest context: `sin(x + 1)`. */
  lemma PrintCall(doubleText: real -> string)
    ensures ToString(Operation("sin", [Operation("+", [Variable("x"), Number(1.0)])]), doubleText)
            == Ok("sin(x + 1)")
  {
    NotSubstringByFirstChar("sin", "-+*/^");
    var arg := Operation("+", [Variable("x"), Number(1.0)]);
    PrintVariableSum(doubleText);
    assert ChildContext("sin") == WeakestPrecedence;
    RenderAllPointwise([arg], WeakestPrecedence, doubleText);
    var items := RenderAll([arg], WeakestPrecedence, doubleText).value;
    assert items == [items[0]];
    assert RenderAll([arg], WeakestPrecedence, doubleText) == Ok(["x + 1"]);
    assert Layout("sin", ["x + 1"]) == Ok("sin" + "(" + "x + 1" + ")");
    assert "sin" + "(" + "x + 1" + ")" == "sin(x + 1)";
  }
}
