/**
 * The syntax tree (ast/tree.py): four node kinds and what each node matches.
 * In Python the kind of a node is read back from its `value()` string; `Tag`
 * models that string, so the places that dispatch on it can be modelled faithfully.
 */
module Tree {

  datatype Node =
    | Value(symbol: char)                         // a leaf: exactly one character
    | Concatenation(left: Node, right: Node)      // tag '+'
    | Decision(left: Node, right: Node)           // tag '|'
    | Clini(child: Node)                          // tag '*': zero or more repetitions

  /** `AST`: a wrapper whose `root()` is the node it was built with. */
  datatype Ast = Ast(root: Node)

  /** `Node.children()`: the children that are not None, left first. */
  function Children(n: Node): (r: seq<Node>)
    ensures |r| == 0 <==> n.Value?
    ensures |r| == 1 <==> n.Clini?
    ensures |r| == 2 <==> n.Concatenation? || n.Decision?
    ensures n.Clini? ==> r[0] == n.child
    ensures |r| == 2 ==> r[0] == n.left && r[1] == n.right
  {
    match n
    case Value(_) => []
    case Concatenation(l, r) => [l, r]
    case Decision(l, r) => [l, r]
    case Clini(c) => [c]
  }

  /** `Node.value()`: the operator tag, or the character of a leaf. */
  function Tag(n: Node): char {
    match n
    case Value(c) => c
    case Concatenation(_, _) => '+'
    case Decision(_, _) => '|'
    case Clini(_) => '*'
  }

  /** The tag does not tell the kinds apart: a leaf holding an operator character shares its tag. */
  lemma TagCollision(n: Node)
    ensures Tag(n) == '*' <==> n.Clini? || n == Value('*')
    ensures Tag(n) == '|' <==> n.Decision? || n == Value('|')
    ensures Tag(n) == '+' <==> n.Concatenation? || n == Value('+')
  {
  }

  /** `__str__`: `l+r`, `(l|r)`, `(c)*`, or the character of a leaf. */
  function Render(n: Node): (s: string)
    ensures |s| >= 1
  {
    match n
    case Value(c) => [c]
    case Concatenation(l, r) => Render(l) + "+" + Render(r)
    case Decision(l, r) => "(" + Render(l) + "|" + Render(r) + ")"
    case Clini(c) => "(" + Render(c) + ")*"
  }

  /** The characters of the leaves, left to right. */
  function Leaves(n: Node): string {
    match n
    case Value(c) => [c]
    case Concatenation(l, r) => Leaves(l) + Leaves(r)
    case Decision(l, r) => Leaves(l) + Leaves(r)
    case Clini(c) => Leaves(c)
  }

  /** Number of operator nodes of each kind. */
  function OperatorCount(n: Node): (counts: (nat, nat, nat)) {
    match n
    case Value(_) => (0, 0, 0)
    case Concatenation(l, r) =>
      var (a, b, c) := OperatorCount(l);
      var (x, y, z) := OperatorCount(r);
      (a + x + 1, b + y, c + z)
    case Decision(l, r) =>
      var (a, b, c) := OperatorCount(l);
      var (x, y, z) := OperatorCount(r);
      (a + x, b + y + 1, c + z)
    case Clini(ch) =>
      var (a, b, c) := OperatorCount(ch);
      (a, b, c + 1)
  }

  /** Every leaf is one character and each operator adds its fixed punctuation: 1 for `+`, 3 for `(|)`, 3 for `()*`. */
  lemma {:induction false} RenderLength(n: Node)
    ensures |Render(n)| == |Leaves(n)| + OperatorCount(n).0 + 3 * OperatorCount(n).1 + 3 * OperatorCount(n).2
  {
    match n
    case Value(_) =>
    case Concatenation(l, r) => RenderLength(l); RenderLength(r);
    case Decision(l, r) => RenderLength(l); RenderLength(r);
    case Clini(c) => RenderLength(c);
  }

  /** The rendering drops the grouping of nested concatenations, so two different trees can print alike. */
  lemma RenderForgetsGrouping()
    ensures Render(Concatenation(Concatenation(Value('a'), Value('b')), Value('c')))
         == Render(Concatenation(Value('a'), Concatenation(Value('b'), Value('c'))))
  {
  }

  /** The words a node matches: the usual regular-language reading of the four kinds. */
  predicate Matches(n: Node, w: string)
    decreases n, |w|
  {
    match n
    case Value(c) => w == [c]
    case Concatenation(l, r) => exists k :: 0 <= k <= |w| && Matches(l, w[..k]) && Matches(r, w[k..])
    case Decision(l, r) => Matches(l, w) || Matches(r, w)
    case Clini(c) => w == [] || exists k :: 1 <= k <= |w| && Matches(c, w[..k]) && Matches(n, w[k..])
  }

  /** Two words of a closure's language, one after the other, are again in it. */
  lemma {:induction false} ClosureAppend(c: Node, u: string, v: string)
    requires Matches(Clini(c), u) && Matches(Clini(c), v)
    ensures Matches(Clini(c), u + v)
    decreases |u|
  {
    if u == [] {
      assert u + v == v;
    } else {
      var k :| 1 <= k <= |u| && Matches(c, u[..k]) && Matches(Clini(c), u[k..]);
      ClosureAppend(c, u[k..], v);
      assert (u + v)[..k] == u[..k];
      assert (u + v)[k..] == u[k..] + v;
    }
  }

  /** A closure of a closure matches exactly what the inner closure matches. */
  lemma {:induction false} ClosureIdempotent(c: Node, w: string)
    ensures Matches(Clini(Clini(c)), w) <==> Matches(Clini(c), w)
    decreases |w|
  {
    if w != [] {
      if Matches(Clini(Clini(c)), w) {
        var k :| 1 <= k <= |w| && Matches(Clini(c), w[..k]) && Matches(Clini(Clini(c)), w[k..]);
        ClosureIdempotent(c, w[k..]);
        ClosureAppend(c, w[..k], w[k..]);
        assert w[..k] + w[k..] == w;
      }
      if Matches(Clini(c), w) {
        assert w[..|w|] == w && w[|w|..] == [];
        assert Matches(Clini(Clini(c)), w[|w|..]);
      }
    }
  }

  /** Every word of `a*b` ends in `b`, so neither it nor its closure holds `a`. */
  lemma ClosureOfConcatenationMisses()
    ensures !Matches(Clini(Concatenation(Clini(Value('a')), Value('b'))), "a")
  {
    var inner := Concatenation(Clini(Value('a')), Value('b'));
    var w := "a";
    forall k | 0 <= k <= 1
      ensures !Matches(Value('b'), w[k..])
    {
    }
    assert !Matches(inner, w);
    assert w[..1] == w;
  }
}
