/** Trees of the shape the parser builds for the grammar, for stating the
    calculator's behaviour on concrete inputs. A literal operand is a leaf
    tagged "expr|number|regex"; a parenthesised form is a node tagged
    "expr|>" whose children are `(`, the symbol, the operands and `)`; the
    top-level line is a node tagged ">" with the start and end anchors in
    place of the parentheses. */
module Trees {
  import opened Literals
  import opened Syntax

  const NumberTag: string := "expr|number|regex"
  const GroupTag: string := "expr|>"
  const LineTag: string := ">"
  const OperatorTag: string := "operator|char"
  const FunctionTag: string := "function|string"
  const CharTag: string := "char"
  const RegexTag: string := "regex"

  /** The operand the parser builds for the literal `ShowInt(n)`. */
  function Literal(n: int): (t: Node)
    ensures IsNumber(t) && IsExpr(t) && WellFormed(t) && |t.children| == 0
  {
    TagFacts();
    Node(NumberTag, ShowInt(n), [])
  }

  function OperatorLeaf(op: string): (t: Node)
    ensures IsSymbolLeaf(t) && IsOperator(t) && t.contents == op
  {
    TagFacts();
    Node(OperatorTag, op, [])
  }

  function FunctionLeaf(f: string): (t: Node)
    ensures IsSymbolLeaf(t) && !IsOperator(t) && IsFunction(t) && t.contents == f
  {
    TagFacts();
    Node(FunctionTag, f, [])
  }

  /** A symbol leaf the evaluator reads as an operator or a function. */
  predicate IsSymbolLeaf(head: Node) {
    head.tag == OperatorTag || head.tag == FunctionTag
  }

  /** What a form headed by the symbol leaf `head` applies. */
  function FormFor(head: Node): Form {
    if head.tag == OperatorTag then Operator(head.contents) else Function(head.contents)
  }

  /** Operands the evaluator accepts: each is tagged "expr" and well formed. */
  predicate AreOperands(args: seq<Node>) {
    forall k :: 0 <= k < |args| ==> IsExpr(args[k]) && WellFormed(args[k])
  }

  /** `t` is a form applying `head` to exactly the operands `args`: the
      symbol at index 1, the operands from index 2, then a terminator not
      tagged "expr". */
  predicate Shaped(t: Node, head: Node, args: seq<Node>) {
    && IsSymbolLeaf(head) && |args| >= 1 && AreOperands(args)
    && !IsNumber(t)
    && |t.children| == |args| + 3 && t.children[1] == head
    && (forall k :: 0 <= k < |args| ==> t.children[k + 2] == args[k])
    && !IsExpr(t.children[|args| + 2])
  }

  /** `( head args... )` */
  function Group(head: Node, args: seq<Node>): (t: Node)
    ensures IsExpr(t)
    ensures IsSymbolLeaf(head) && |args| >= 1 && AreOperands(args) ==> Shaped(t, head, args) && WellFormed(t)
  {
    TagFacts();
    var t := Node(GroupTag, "", [Node(CharTag, "(", []), head] + args + [Node(CharTag, ")", [])]);
    BuiltShape(t, head, args);
    t
  }

  /** `head args...` as a whole input line, between the line anchors. */
  function Line(head: Node, args: seq<Node>): (t: Node)
    ensures IsSymbolLeaf(head) && |args| >= 1 && AreOperands(args) ==> Shaped(t, head, args) && WellFormed(t)
  {
    TagFacts();
    var t := Node(LineTag, "", [Node(RegexTag, "", []), head] + args + [Node(RegexTag, "", [])]);
    BuiltShape(t, head, args);
    t
  }

  /** A block containing a character `s` lacks does not occur in `s`. */
  lemma AbsentChar(w: string, s: string, k: nat)
    requires k < |w| && w[k] !in s
    ensures !Occurs(w, s)
  {
  }

  /** How the evaluator's tag tests read the tags of these trees. */
  lemma TagFacts()
    ensures Occurs("number", NumberTag) && Occurs("expr", NumberTag)
    ensures !Occurs("number", GroupTag) && Occurs("expr", GroupTag)
    ensures !Occurs("number", LineTag)
    ensures Occurs("operator", OperatorTag) && !Occurs("expr", OperatorTag)
    ensures !Occurs("operator", FunctionTag) && Occurs("function", FunctionTag)
    ensures !Occurs("expr", FunctionTag)
    ensures !Occurs("expr", CharTag) && !Occurs("expr", RegexTag)
  {
    assert OccursAt("number", NumberTag, 5);
    assert OccursAt("expr", NumberTag, 0);
    assert OccursAt("expr", GroupTag, 0);
    assert OccursAt("operator", OperatorTag, 0);
    assert OccursAt("function", FunctionTag, 0);
    AbsentChar("number", GroupTag, 0);
    AbsentChar("number", LineTag, 0);
    AbsentChar("expr", OperatorTag, 1);
    AbsentChar("operator", FunctionTag, 1);
    AbsentChar("expr", FunctionTag, 0);
    AbsentChar("expr", CharTag, 0);
    AbsentChar("expr", RegexTag, 2);
  }

  /** What the evaluator reads off a shaped form. */
  lemma {:induction false} ShapedFacts(t: Node, head: Node, args: seq<Node>)
    requires Shaped(t, head, args)
    ensures HasForm(t) && OperandsEnd(t.children, 3) == |args| + 2
    ensures WellFormed(t)
    ensures FormOf(t) == FormFor(head)
  {
    TagFacts();
    assert forall j :: 2 <= j < |args| + 2 ==> t.children[j] == args[j - 2];
    OperandsRun(t.children, 3, |args| + 2);
  }

  /** A node whose children are a delimiter, `head`, `args` and a
      delimiter not tagged "expr" is shaped when its parts are. */
  lemma BuiltShape(t: Node, head: Node, args: seq<Node>)
    requires !IsNumber(t) && |t.children| == |args| + 3
    requires t.children[1..|args| + 2] == [head] + args
    requires !IsExpr(t.children[|args| + 2])
    ensures IsSymbolLeaf(head) && |args| >= 1 && AreOperands(args) ==> Shaped(t, head, args) && WellFormed(t)
  {
    assert forall k :: 0 <= k < |args| ==> t.children[k + 2] == t.children[1..|args| + 2][k + 1] == args[k];
    if IsSymbolLeaf(head) && |args| >= 1 && AreOperands(args) {
      ShapedFacts(t, head, args);
    }
  }

  /** Operands tagged "expr" up to a terminator: the loop stops there. */
  lemma {:induction false} OperandsRun(cs: seq<Node>, from: nat, end: nat)
    requires from <= end < |cs|
    requires forall j :: from <= j < end ==> IsExpr(cs[j])
    requires !IsExpr(cs[end])
    ensures OperandsEnd(cs, from) == end
    decreases end - from
  {
    if from < end {
      OperandsRun(cs, from + 1, end);
    }
  }
}
