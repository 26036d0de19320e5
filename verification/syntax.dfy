/** The syntax tree the parser hands to the evaluator (`mpc_ast_t`): a tag
    naming the grammar rules that produced the node, such as
    `"expr|number|regex"` or `"operator|char"`, the matched text of a leaf,
    and the ordered children. The evaluator classifies nodes by searching
    their tags with `strstr`, and reads an operator or function form by
    position: `children[1]` is the symbol, `children[2]` the first operand,
    and the further operands run from index 3 up to the first child whose tag
    lacks "expr" (the closing parenthesis, or the end-of-line anchor at the
    top level). */
module Syntax {
  import opened Literals

  datatype Node = Node(tag: string, contents: string, children: seq<Node>)

  /** `w` occurs in `s` as a contiguous block starting at index `i`. */
  predicate OccursAt(w: string, s: string, i: int) {
    0 <= i <= |s| - |w| && s[i..i + |w|] == w
  }

  /** `w` occurs in `s` as a contiguous block. */
  predicate Occurs(w: string, s: string) {
    exists i | 0 <= i <= |s| - |w| :: OccursAt(w, s, i)
  }

  /** `strstr`, as a position: the first index at or after `from` where `w`
      starts in `s`, or -1 when there is none. */
  function Strstr(s: string, w: string, from: nat): (r: int)
    ensures r == -1 || (from <= r && OccursAt(w, s, r))
    ensures r == -1 <==> forall j :: from <= j ==> !OccursAt(w, s, j)
    ensures r != -1 ==> forall j :: from <= j < r ==> !OccursAt(w, s, j)
    decreases |s| - from
  {
    if from + |w| > |s| then -1
    else if s[from..from + |w|] == w then from
    else Strstr(s, w, from + 1)
  }

  /** The evaluator's `strstr(s, w)` test is true exactly when `w` occurs in `s`. */
  lemma StrstrFinds(s: string, w: string)
    ensures Strstr(s, w, 0) != -1 <==> Occurs(w, s)
  {
  }

  predicate IsNumber(t: Node) { Occurs("number", t.tag) }
  predicate IsOperator(t: Node) { Occurs("operator", t.tag) }
  predicate IsFunction(t: Node) { Occurs("function", t.tag) }
  predicate IsExpr(t: Node) { Occurs("expr", t.tag) }

  /** An operator or function form: a non-number node whose second child is
      an operator or a function symbol. */
  predicate HasForm(t: Node) {
    !IsNumber(t) && |t.children| >= 2 && (IsOperator(t.children[1]) || IsFunction(t.children[1]))
  }

  /** What a form applies; the operator test comes first, as in the source. */
  datatype Form = Operator(symbol: string) | Function(name: string)

  function FormOf(t: Node): Form
    requires HasForm(t)
  {
    if IsOperator(t.children[1]) then Operator(t.children[1].contents)
    else Function(t.children[1].contents)
  }

  /** Where the evaluator's operand loop stops: the first index at or after
      `from` whose node is not tagged "expr", or `|cs|` if there is none. */
  function OperandsEnd(cs: seq<Node>, from: nat): (k: nat)
    requires from <= |cs|
    ensures from <= k <= |cs|
    ensures forall j :: from <= j < k ==> IsExpr(cs[j])
    ensures k < |cs| ==> !IsExpr(cs[k])
    decreases |cs| - from
  {
    if from == |cs| || !IsExpr(cs[from]) then from else OperandsEnd(cs, from + 1)
  }

  /** Every index the evaluator touches exists: a number carries a literal of
      the number rule; any other node has a slot at index 1; a form has a
      first operand and a terminator after its operands, and every operand
      it evaluates is itself well formed. */
  predicate WellFormed(t: Node)
    decreases t
  {
    if IsNumber(t) then IsDecimalLiteral(t.contents)
    else
      && |t.children| >= 2
      && (HasForm(t) ==>
            && |t.children| >= 4
            && OperandsEnd(t.children, 3) < |t.children|
            && WellFormed(t.children[2])
            && (forall j :: 3 <= j < OperandsEnd(t.children, 3) ==> WellFormed(t.children[j])))
  }

  /** The symbols the grammar's operator and function rules accept. */
  const GrammarOperators: set<string> := {"+", "-", "*", "/", "^", "%"}
  const GrammarFunctions: set<string> := {"min", "max"}

  /** Every form in the tree names a symbol its grammar rule accepts, as in
      every tree the parser builds. */
  predicate Grammatical(t: Node)
    decreases t
  {
    && (HasForm(t) ==>
          if IsOperator(t.children[1]) then t.children[1].contents in GrammarOperators
          else t.children[1].contents in GrammarFunctions)
    && (forall c :: c in t.children ==> Grammatical(c))
  }

  /** The number of nodes in the tree. */
  function Size(t: Node): nat
    decreases t, 1
  {
    1 + ChildrenSize(t, |t.children|)
  }

  /** The total size of the first `n` children of `t`. */
  function ChildrenSize(t: Node, n: nat): nat
    requires n <= |t.children|
    decreases t, 0, n
  {
    if n == 0 then 0 else ChildrenSize(t, n - 1) + Size(t.children[n - 1])
  }

  /** `num_of_nodes`: one for the node itself plus, child by child, the
      count of each subtree. */
  method NumOfNodes(t: Node) returns (total: int)
    ensures total == Size(t)
    decreases t
  {
    if |t.children| == 0 {
      return 1;
    }
    total := 1;
    var i := 0;
    while i < |t.children|
      invariant 0 <= i <= |t.children|
      invariant total == 1 + ChildrenSize(t, i)
    {
      var k := NumOfNodes(t.children[i]);
      total := total + k;
      i := i + 1;
    }
  }

  /** The count covers the node, each child, and more than any one subtree. */
  lemma {:induction false} SizeBounds(t: Node)
    ensures Size(t) >= 1 + |t.children|
    ensures forall j :: 0 <= j < |t.children| ==> Size(t.children[j]) < Size(t)
  {
    ChildrenSizeBounds(t, |t.children|);
  }

  lemma {:induction false} ChildrenSizeBounds(t: Node, n: nat)
    requires n <= |t.children|
    ensures ChildrenSize(t, n) >= n
    ensures forall j :: 0 <= j < n ==> Size(t.children[j]) <= ChildrenSize(t, n)
    decreases n
  {
    if n > 0 {
      ChildrenSizeBounds(t, n - 1);
      assert Size(t.children[n - 1]) >= 1;
    }
  }
}
