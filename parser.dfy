/**
 * The parser (ast/parser.py): a token list becomes a syntax tree by repeatedly
 * asking `next_op` for the operator that splits the current window.
 * The spec functions below follow the Python loops step by step; their
 * contracts say what each loop finds. The methods are the loops themselves.
 *
 * Several functions take a flag `corrected`: false is the code as written,
 * true is the repaired rule for dropping an outer pair of parentheses and for
 * collapsing nested closures (see `Wrapped` and `Optimize`).
 */
module Parser {
  import opened Outcomes
  import opened Scanner
  import opened Tree

  /** `is_spec_symb`: the token is the metacharacter `c`. */
  predicate IsSpecSymb(t: Token, c: char) {
    t == Special(c)
  }

  /** How many Special `c` tokens the list holds. */
  function Count(ts: seq<Token>, c: char): nat {
    if ts == [] then 0
    else Count(ts[..|ts| - 1], c) + (if IsSpecSymb(ts[|ts| - 1], c) then 1 else 0)
  }

  /** Parenthesis depth after reading `ts`: opened minus closed. */
  function Depth(ts: seq<Token>): int {
    Count(ts, '(') - Count(ts, ')')
  }

  /** The change of depth one token makes. */
  function Delta(t: Token): int {
    if IsSpecSymb(t, '(') then 1 else if IsSpecSymb(t, ')') then -1 else 0
  }

  lemma CountStep(ts: seq<Token>, i: nat, c: char)
    requires i < |ts|
    ensures Count(ts[..i + 1], c) == Count(ts[..i], c) + (if IsSpecSymb(ts[i], c) then 1 else 0)
  {
    assert ts[..i + 1][..i] == ts[..i];
  }

  lemma DepthStep(ts: seq<Token>, i: nat)
    requires i < |ts|
    ensures Depth(ts[..i + 1]) == Depth(ts[..i]) + Delta(ts[i])
  {
    CountStep(ts, i, '(');
    CountStep(ts, i, ')');
  }

  /** `parenthesis_test`: as many '(' as ')', in whatever order. */
  method ParenthesisTest(ts: seq<Token>) returns (ok: bool)
    ensures ok <==> Count(ts, '(') == Count(ts, ')')
  {
    var parenthesis := 0;
    var i := 0;
    assert ts[..0] == [];
    while i < |ts|
      invariant 0 <= i <= |ts|
      invariant parenthesis == Depth(ts[..i])
    {
      DepthStep(ts, i);
      if IsSpecSymb(ts[i], '(') {
        parenthesis := parenthesis + 1;
      } else if IsSpecSymb(ts[i], ')') {
        parenthesis := parenthesis - 1;
      }
      i := i + 1;
    }
    assert ts[..i] == ts;
    ok := parenthesis == 0;
  }

  /** Position `j` holds a '|' outside every parenthesis. */
  predicate IsTopOr(ts: seq<Token>, j: int) {
    0 <= j < |ts| && IsSpecSymb(ts[j], '|') && Depth(ts[..j]) == 0
  }

  /** The scan of `get_or_op` from position `i` with depth `par`. */
  function OrFrom(ts: seq<Token>, i: nat, par: int): (r: Option<nat>)
    requires i <= |ts| && par == Depth(ts[..i])
    ensures r.Some? ==> i <= r.value && IsTopOr(ts, r.value) && forall j | i <= j < r.value :: !IsTopOr(ts, j)
    ensures r.None? ==> forall j | i <= j < |ts| :: !IsTopOr(ts, j)
    decreases |ts| - i
  {
    if i == |ts| then None
    else
      DepthStep(ts, i);
      var p := par + Delta(ts[i]);
      if IsSpecSymb(ts[i], '|') && p == 0 then Some(i) else OrFrom(ts, i + 1, p)
  }

  /** The first '|' outside every parenthesis, if any. */
  function TopOr(ts: seq<Token>): (r: Option<nat>)
    ensures r.Some? ==> IsTopOr(ts, r.value) && forall j | 0 <= j < r.value :: !IsTopOr(ts, j)
    ensures r.None? ==> forall j | 0 <= j < |ts| :: !IsTopOr(ts, j)
  {
    assert ts[..0] == [];
    OrFrom(ts, 0, 0)
  }

  /** `get_or_op`: the position of the first top-level '|', or `(0, False)`. */
  method GetOrOp(ts: seq<Token>) returns (pos: nat, ok: bool)
    ensures ok <==> TopOr(ts).Some?
    ensures ok ==> pos == TopOr(ts).value
    ensures !ok ==> pos == 0
  {
    var i := 0;
    var par := 0;
    assert ts[..0] == [];
    while i < |ts|
      invariant 0 <= i <= |ts| && par == Depth(ts[..i])
      invariant OrFrom(ts, i, par) == TopOr(ts)
    {
      DepthStep(ts, i);
      var t := ts[i];
      if IsSpecSymb(t, '(') {
        par := par + 1;
      } else if IsSpecSymb(t, ')') {
        par := par - 1;
      }
      if IsSpecSymb(t, '|') && par == 0 {
        return i, true;
      }
      i := i + 1;
    }
    return 0, false;
  }

  /** The group scan of `next_op` from position `i` with depth `par`. */
  function GroupEnd(ts: seq<Token>, i: nat, par: int): (k: nat)
    requires i <= |ts| && par == Depth(ts[..i])
    ensures i <= k <= |ts| && (i < |ts| ==> i < k)
    ensures k == |ts| || Depth(ts[..k]) == 0
    ensures forall j | i < j < k :: Depth(ts[..j]) != 0
    decreases |ts| - i
  {
    if i == |ts| then |ts|
    else
      DepthStep(ts, i);
      var p := par + Delta(ts[i]);
      if p == 0 then i + 1 else GroupEnd(ts, i + 1, p)
  }

  /** The length of the shortest non-empty prefix at depth zero, or the whole length if there is none. */
  function GroupClose(ts: seq<Token>): (k: nat)
    ensures k <= |ts| && (|ts| > 0 ==> 0 < k)
    ensures k == |ts| || Depth(ts[..k]) == 0
    ensures forall j | 0 < j < k :: Depth(ts[..j]) != 0
  {
    assert ts[..0] == [];
    GroupEnd(ts, 0, 0)
  }

  /** The first position at or after `i` that is not a '*', or the length. */
  function SkipStars(ts: seq<Token>, i: nat): (k: nat)
    requires i <= |ts|
    ensures i <= k <= |ts|
    ensures forall j | i <= j < k :: IsSpecSymb(ts[j], '*')
    ensures k < |ts| ==> !IsSpecSymb(ts[k], '*')
    decreases |ts| - i
  {
    if i == |ts| then |ts|
    else if !IsSpecSymb(ts[i], '*') then i
    else SkipStars(ts, i + 1)
  }

  /** Where the first operand of a window ends: after its group, after its literal, or at 0. */
  function OperandEnd(ts: seq<Token>): nat
    requires |ts| >= 1
  {
    if IsSpecSymb(ts[0], '(') then GroupClose(ts)
    else if ts[0].Literal? then 1
    else 0
  }

  /**
   * Whether `next_op` drops the first and last token of a window and starts over.
   * As written: exactly one '(' in the window, first token '(' and last ')'.
   * Corrected: the group opened by the first token closes at the last token.
   */
  predicate Wrapped(ts: seq<Token>, corrected: bool)
    requires |ts| >= 2
  {
    IsSpecSymb(ts[0], '(') && IsSpecSymb(ts[|ts| - 1], ')') &&
    if corrected then GroupClose(ts) == |ts| && Depth(ts) == 0 else Count(ts, '(') == 1
  }

  /** The operator `next_op` returns: `+`, `|`, `*` or `v`. */
  datatype Op = Concat | Or | Star | Leaf

  /** `(left, op, right)` as `next_op` returns it. */
  datatype Split = Split(left: seq<Token>, op: Op, right: seq<Token>)

  /** The characters of the literal tokens, in order. */
  function Literals(ts: seq<Token>): string {
    if ts == [] then []
    else Literals(ts[..|ts| - 1]) + (if ts[|ts| - 1].Literal? then [ts[|ts| - 1].c] else [])
  }

  lemma {:induction false} LiteralsAppend(a: seq<Token>, b: seq<Token>)
    ensures Literals(a + b) == Literals(a) + Literals(b)
    decreases |b|
  {
    if b == [] {
      assert a + b == a;
    } else {
      var b' := b[..|b| - 1];
      LiteralsAppend(a, b');
      assert (a + b)[..|a + b| - 1] == a + b';
    }
  }

  lemma LiteralsCut(ts: seq<Token>, p: nat)
    requires p <= |ts|
    ensures Literals(ts[..p]) + Literals(ts[p..]) == Literals(ts)
  {
    var a, b := ts[..p], ts[p..];
    assert a + b == ts;
    LiteralsAppend(a, b);
  }

  /** Dropping a Special token keeps the literals. */
  lemma LiteralsAround(ts: seq<Token>, p: nat)
    requires p < |ts| && ts[p].Special?
    ensures Literals(ts[..p]) + Literals(ts[p + 1..]) == Literals(ts)
  {
    var a := ts[..p + 1];
    LiteralsCut(ts, p + 1);
    assert a[..|a| - 1] == ts[..p] && a[|a| - 1] == ts[p];
    assert Literals(a) == Literals(ts[..p]);
  }

  lemma LiteralsUnwrap(ts: seq<Token>)
    requires |ts| >= 2 && ts[0].Special? && ts[|ts| - 1].Special?
    ensures Literals(ts[1..|ts| - 1]) == Literals(ts)
  {
    var inner, front := ts[1..|ts| - 1], ts[..|ts| - 1];
    assert Literals(ts) == Literals(front);
    assert front == [ts[0]] + inner;
    LiteralsAppend([ts[0]], inner);
    assert Literals([ts[0]]) == [] by {
      assert [ts[0]][..0] == [];
    }
  }

  /** A window that opens with '(' and never gets back to depth zero: its group is not closed inside it. */
  predicate Unclosed(ts: seq<Token>) {
    |ts| >= 1 && IsSpecSymb(ts[0], '(') && forall k | 1 <= k <= |ts| :: Depth(ts[..k]) != 0
  }

  /** The star split keeps the literals, unless the window is an unclosed group (the only way it can drop one). */
  lemma StarLeft(ts: seq<Token>)
    requires |ts| >= 2 && SkipStars(ts, OperandEnd(ts)) == |ts|
    ensures Literals(ts[..|ts| - 1]) == Literals(ts) || Unclosed(ts[..|ts| - 1])
  {
    var e := OperandEnd(ts);
    if e < |ts| {
      assert IsSpecSymb(ts[|ts| - 1], '*');
      LiteralsAround(ts, |ts| - 1);
      assert ts[|ts|..] == [];
    } else {
      var left := ts[..|ts| - 1];
      assert IsSpecSymb(ts[0], '(');
      forall k | 1 <= k <= |left|
        ensures Depth(left[..k]) != 0
      {
        assert left[..k] == ts[..k];
      }
    }
  }

  /** `next_op`: the operator that splits the window and its operands, or the error it raises. */
  function NextOpSpec(ts: seq<Token>, corrected: bool): Result<Split, ExpressionError>
    decreases |ts|
  {
    if |ts| == 0 then Err(EmptySubExpression)
    else if |ts| == 1 then
      if ts[0].Literal? then Ok(Split(ts, Leaf, [])) else Err(Expression)
    else
      match TopOr(ts)
      case Some(p) => Ok(Split(ts[..p], Or, ts[p + 1..]))
      case None =>
        if Wrapped(ts, corrected) then NextOpSpec(ts[1..|ts| - 1], corrected)
        else
          var pos := SkipStars(ts, OperandEnd(ts));
          if pos == |ts| then Ok(Split(ts[..|ts| - 1], Star, []))
          else if IsSpecSymb(ts[pos], '|') then Ok(Split(ts[..pos], Or, ts[pos + 1..]))
          else Ok(Split(ts[..pos], Concat, ts[pos..]))
  }

  /**
   * What `next_op` promises its caller: only the two operand errors; operands strictly
   * shorter than the window (so parsing terminates); and the literal tokens shared out
   * between the operands in order, except that a star split of an unclosed group drops one.
   */
  lemma {:induction false} NextOpSplits(ts: seq<Token>, corrected: bool)
    ensures var r := NextOpSpec(ts, corrected);
      && (r.Err? ==> r.error == EmptySubExpression || r.error == Expression)
      && (|ts| == 0 ==> r == Err(EmptySubExpression))
      && (r.Ok? && r.value.op == Leaf ==>
            |r.value.left| == 1 && r.value.left[0].Literal? && r.value.right == [] && Literals(r.value.left) == Literals(ts))
      && (r.Ok? && r.value.op == Star ==>
            |r.value.left| < |ts| && r.value.right == [] && (Literals(r.value.left) == Literals(ts) || Unclosed(r.value.left)))
      && (r.Ok? && r.value.op == Or ==>
            |r.value.left| < |ts| && |r.value.right| < |ts| && Literals(r.value.left) + Literals(r.value.right) == Literals(ts))
      && (r.Ok? && r.value.op == Concat ==>
            |r.value.left| + |r.value.right| <= |ts| && r.value.right != [] &&
            Literals(r.value.left) + Literals(r.value.right) == Literals(ts))
    decreases |ts|
  {
    if |ts| >= 2 {
      match TopOr(ts)
      case Some(p) =>
        assert NextOpSpec(ts, corrected) == Ok(Split(ts[..p], Or, ts[p + 1..]));
        LiteralsAround(ts, p);
      case None =>
        if Wrapped(ts, corrected) {
          assert NextOpSpec(ts, corrected) == NextOpSpec(ts[1..|ts| - 1], corrected);
          LiteralsUnwrap(ts);
          NextOpSplits(ts[1..|ts| - 1], corrected);
        } else {
          var pos := SkipStars(ts, OperandEnd(ts));
          if pos == |ts| {
            assert NextOpSpec(ts, corrected) == Ok(Split(ts[..|ts| - 1], Star, []));
            StarLeft(ts);
          } else if IsSpecSymb(ts[pos], '|') {
            assert NextOpSpec(ts, corrected) == Ok(Split(ts[..pos], Or, ts[pos + 1..]));
            LiteralsAround(ts, pos);
          } else {
            assert NextOpSpec(ts, corrected) == Ok(Split(ts[..pos], Concat, ts[pos..]));
            LiteralsCut(ts, pos);
          }
        }
    }
  }

  /** The group loop of `next_op` (lines 59-69): tokens read until the depth is back at zero. */
  method GroupScan(ts: seq<Token>) returns (pos: nat)
    ensures pos == GroupClose(ts)
  {
    var i := 0;
    var par := 0;
    assert ts[..0] == [];
    while i < |ts|
      invariant 0 <= i <= |ts| && par == Depth(ts[..i])
      invariant GroupEnd(ts, i, par) == GroupClose(ts)
    {
      DepthStep(ts, i);
      var t := ts[i];
      i := i + 1;
      if IsSpecSymb(t, '(') {
        par := par + 1;
      } else if IsSpecSymb(t, ')') {
        par := par - 1;
      }
      if par == 0 {
        break;
      }
    }
    pos := i;
  }

  /** The star loop of `next_op` (lines 73-78): the first non-'*' position from `from`, or the length. */
  method StarScan(ts: seq<Token>, from: nat) returns (pos: nat)
    requires from <= |ts|
    ensures pos == SkipStars(ts, from)
  {
    pos := from;
    while pos < |ts| && IsSpecSymb(ts[pos], '*')
      invariant from <= pos <= |ts|
      invariant SkipStars(ts, pos) == SkipStars(ts, from)
    {
      pos := pos + 1;
    }
  }

  /** The counting loop of `next_op` (lines 80-83): how many '(' the window holds. */
  method OpenCount(ts: seq<Token>) returns (level: nat)
    ensures level == Count(ts, '(')
  {
    level := 0;
    var m := 0;
    assert ts[..0] == [];
    while m < |ts|
      invariant 0 <= m <= |ts| && level == Count(ts[..m], '(')
    {
      CountStep(ts, m, '(');
      if IsSpecSymb(ts[m], '(') {
        level := level + 1;
      }
      m := m + 1;
    }
    assert ts[..m] == ts;
  }

  /** `next_op` as written. */
  method NextOp(ts: seq<Token>) returns (r: Result<Split, ExpressionError>)
    ensures r == NextOpSpec(ts, false)
    decreases |ts|
  {
    if |ts| == 0 {
      return Err(EmptySubExpression);
    }
    if |ts| == 1 {
      if ts[0].Literal? {
        return Ok(Split(ts, Leaf, []));
      }
      return Err(Expression);
    }
    var opPos, ok := GetOrOp(ts);
    if ok {
      return Ok(Split(ts[..opPos], Or, ts[opPos + 1..]));
    }

    assert TopOr(ts) == None;
    var pos := 0;
    if IsSpecSymb(ts[0], '(') {
      pos := GroupScan(ts);
    } else if ts[0].Literal? {
      pos := 1;
    }
    assert pos == OperandEnd(ts);
    pos := StarScan(ts, pos);
    var level := OpenCount(ts);
    if level == 1 && IsSpecSymb(ts[0], '(') && IsSpecSymb(ts[|ts| - 1], ')') {
      assert Wrapped(ts, false);
      r := NextOp(ts[1..|ts| - 1]);
      return;
    }
    assert !Wrapped(ts, false);
    var left := ts[..pos];
    if |left| == |ts| {
      assert left == ts;
      return Ok(Split(left[..|left| - 1], Star, []));
    }
    if IsSpecSymb(ts[pos], '|') {
      return Ok(Split(left, Or, ts[pos + 1..]));
    }
    return Ok(Split(left, Concat, ts[pos..]));
  }

  /** `parse_node`: the tree of a window, operands parsed left first. */
  function ParseNode(ts: seq<Token>, corrected: bool): (r: Result<Node, ExpressionError>)
    ensures r.Ok? ==> |ts| > 0
    ensures r.Err? ==> r.error == EmptySubExpression || r.error == Expression
    decreases |ts|
  {
    NextOpSplits(ts, corrected);
    match NextOpSpec(ts, corrected)
    case Err(e) => Err(e)
    case Ok(Split(left, op, right)) =>
      match op
      case Leaf => Ok(Value(left[0].c))
      case Star =>
        var c := ParseNode(left, corrected);
        if c.Err? then c else Ok(Clini(c.value))
      case Or =>
        var l := ParseNode(left, corrected);
        if l.Err? then l
        else
          var rt := ParseNode(right, corrected);
          if rt.Err? then rt else Ok(Decision(l.value, rt.value))
      case Concat =>
        var l := ParseNode(left, corrected);
        if l.Err? then l
        else
          var rt := ParseNode(right, corrected);
          if rt.Err? then rt else Ok(Concatenation(l.value, rt.value))
  }

  /** Inside an unclosed group the depth stays positive. */
  lemma {:induction false} UnclosedPositive(ts: seq<Token>, k: nat)
    requires Unclosed(ts) && 1 <= k <= |ts|
    ensures Depth(ts[..k]) > 0
  {
    DepthStep(ts, k - 1);
    if k == 1 {
      assert ts[..0] == [];
    } else {
      UnclosedPositive(ts, k - 1);
    }
  }

  /** A window that is an unclosed group never parses: the star split keeps peeling its last token. */
  lemma {:induction false} UnclosedFails(ts: seq<Token>, corrected: bool)
    requires Unclosed(ts)
    ensures ParseNode(ts, corrected) == Err(Expression)
    decreases |ts|
  {
    if |ts| >= 2 {
      assert TopOr(ts).None? by {
        forall j | 0 <= j < |ts|
          ensures !IsTopOr(ts, j)
        {
          if j == 0 {
            assert !IsSpecSymb(ts[0], '|');
          }
        }
      }
      assert ts[..|ts|] == ts;
      UnclosedPositive(ts, |ts|);
      assert !Wrapped(ts, corrected) by {
        if IsSpecSymb(ts[|ts| - 1], ')') && !corrected {
          assert Count(ts, ')') >= 1;
        }
      }
      assert OperandEnd(ts) == |ts|;
      var left := ts[..|ts| - 1];
      assert NextOpSpec(ts, corrected) == Ok(Split(left, Star, []));
      NextOpSplits(ts, corrected);
      forall k | 1 <= k <= |left|
        ensures Depth(left[..k]) != 0
      {
        assert left[..k] == ts[..k];
      }
      UnclosedFails(left, corrected);
    }
  }

  /** A parsed tree holds exactly the literal tokens of its window, in order: nothing is lost or reordered. */
  lemma {:induction false} ParseKeepsLiterals(ts: seq<Token>, corrected: bool)
    requires ParseNode(ts, corrected).Ok?
    ensures Leaves(ParseNode(ts, corrected).value) == Literals(ts)
    decreases |ts|
  {
    NextOpSplits(ts, corrected);
    var s := NextOpSpec(ts, corrected).value;
    match s.op
    case Leaf =>
    case Star =>
      if Unclosed(s.left) {
        UnclosedFails(s.left, corrected);
      }
      ParseKeepsLiterals(s.left, corrected);
    case Or =>
      ParseKeepsLiterals(s.left, corrected);
      ParseKeepsLiterals(s.right, corrected);
    case Concat =>
      ParseKeepsLiterals(s.left, corrected);
      ParseKeepsLiterals(s.right, corrected);
  }

  /** `optimize_node` as written: a closure whose child's tag is '*' is replaced by the optimized child. */
  function OptimizeNode(n: Node): (r: Node)
    ensures Leaves(r) == Leaves(n)
    ensures !n.Clini? ==> r == n
    ensures r.Clini? ==> Tag(r.child) != '*'
    ensures n.Clini? && Tag(n.child) != '*' ==> r == n
    ensures n.Clini? && Tag(n.child) == '*' ==> r == OptimizeNode(n.child)
  {
    var children := Children(n);
    if |children| == 1 then
      if Tag(n) == '*' then
        if Tag(children[0]) == '*' then OptimizeNode(children[0]) else n
      else
        assert false; n
    else n
  }

  /** Where no leaf is the letter `*`, `optimize_node` as written keeps the words the tree matches. */
  lemma {:induction false} OptimizeNodeKeepsLanguage(n: Node, w: string)
    requires '*' !in Leaves(n)
    ensures Matches(OptimizeNode(n), w) <==> Matches(n, w)
  {
    if n.Clini? && Tag(n.child) == '*' {
      assert n.child.Clini?;
      OptimizeNodeKeepsLanguage(n.child, w);
      ClosureIdempotent(n.child.child, w);
    }
  }

  /** Nested closures collapsed by kind: the repaired `optimize_node`. */
  function OptimizeClosures(n: Node): (r: Node)
    ensures Leaves(r) == Leaves(n)
    ensures !n.Clini? ==> r == n
    ensures r.Clini? ==> !r.child.Clini?
  {
    if n.Clini? && n.child.Clini? then OptimizeClosures(n.child) else n
  }

  /** The repaired optimization leaves the language unchanged. */
  lemma {:induction false} OptimizeClosuresKeepsLanguage(n: Node, w: string)
    ensures Matches(OptimizeClosures(n), w) <==> Matches(n, w)
  {
    if n.Clini? && n.child.Clini? {
      OptimizeClosuresKeepsLanguage(n.child, w);
      ClosureIdempotent(n.child.child, w);
    }
  }

  /** `optimize`: the tree with its root optimized. */
  function Optimize(t: Ast, corrected: bool): (r: Ast)
    ensures Leaves(r.root) == Leaves(t.root)
  {
    Ast(if corrected then OptimizeClosures(t.root) else OptimizeNode(t.root))
  }

  /** `parse`: scan, check the parenthesis counts, build the tree, optimize it. */
  function Parse(pattern: string, corrected: bool): (r: Result<Ast, ExpressionError>)
    ensures r == Err(Parenthesis) <==>
      ScanFrom(pattern, false).Ok? && Count(ScanFrom(pattern, false).value, '(') != Count(ScanFrom(pattern, false).value, ')')
    ensures ScanFrom(pattern, false).Err? ==> r == Err(ScanFrom(pattern, false).error)
  {
    match ScanFrom(pattern, false)
    case Err(e) => Err(e)
    case Ok(tokens) =>
      if Count(tokens, '(') != Count(tokens, ')') then Err(Parenthesis)
      else
        match ParseNode(tokens, corrected)
        case Err(e) => Err(e)
        case Ok(n) => Ok(Optimize(Ast(n), corrected))
  }

  /** A parsed pattern's leaves are its literal characters, escapes resolved, in order. */
  lemma ParseLiterals(pattern: string, corrected: bool)
    requires Parse(pattern, corrected).Ok?
    ensures Leaves(Parse(pattern, corrected).value.root) == Literals(ScanFrom(pattern, false).value)
  {
    ParseKeepsLiterals(ScanFrom(pattern, false).value, corrected);
  }

  lemma {:induction false} CountAppend(a: seq<Token>, b: seq<Token>, c: char)
    ensures Count(a + b, c) == Count(a, c) + Count(b, c)
    decreases |b|
  {
    if b == [] {
      assert a + b == a;
    } else {
      CountAppend(a, b[..|b| - 1], c);
      assert (a + b)[..|a + b| - 1] == a + b[..|b| - 1];
    }
  }

  /** Every prefix has at least as many '(' as ')', and the whole window as many of each. */
  predicate Balanced(w: seq<Token>) {
    Depth(w) == 0 && forall k | 0 <= k <= |w| :: Depth(w[..k]) >= 0
  }

  /** An opening parenthesis in front raises the depth by one. */
  lemma DepthAfterOpen(w: seq<Token>)
    ensures Depth([Special('(')] + w) == 1 + Depth(w)
  {
    var o := Special('(');
    assert Count([o], '(') == 1 && Count([o], ')') == 0 by { assert [o][..0] == []; }
    CountAppend([o], w, '(');
    CountAppend([o], w, ')');
  }

  /** Inside `(w)` for a balanced `w` the depth stays at least 1, and it is back to 0 at the end. */
  lemma GroupingDepths(w: seq<Token>)
    requires Balanced(w)
    ensures var t := [Special('(')] + w + [Special(')')];
      Depth(t) == 0 && forall j | 1 <= j < |t| :: Depth(t[..j]) >= 1
  {
    var o, c := Special('('), Special(')');
    var t := [o] + w + [c];
    forall j | 1 <= j < |t|
      ensures Depth(t[..j]) >= 1
    {
      assert t[..j] == [o] + w[..j - 1];
      DepthAfterOpen(w[..j - 1]);
    }
    assert t[..|t| - 1] == [o] + w;
    DepthAfterOpen(w);
  }

  /** With the corrected rule, `(w)` for a balanced `w` is unwrapped to `w`. */
  lemma GroupingUnwraps(w: seq<Token>)
    requires Balanced(w)
    ensures NextOpSpec([Special('(')] + w + [Special(')')], true) == NextOpSpec(w, true)
  {
    var t := [Special('(')] + w + [Special(')')];
    GroupingDepths(w);
    assert TopOr(t) == None by {
      forall j | 0 <= j < |t|
        ensures !IsTopOr(t, j)
      {
        if 1 <= j < |t| - 1 {
          assert Depth(t[..j]) >= 1;
        }
      }
    }
    assert GroupClose(t) == |t|;
    assert Wrapped(t, true);
    assert t[1..|t| - 1] == w;
  }

  /** Two windows that split alike parse alike. */
  lemma SameSplitSameParse(ts: seq<Token>, us: seq<Token>, corrected: bool)
    requires NextOpSpec(ts, corrected) == NextOpSpec(us, corrected)
    ensures ParseNode(ts, corrected) == ParseNode(us, corrected)
  {
  }

  /** With the corrected rule, parentheses around a balanced window change nothing: `(w)` splits like `w`. */
  lemma GroupingTransparent(w: seq<Token>)
    requires Balanced(w)
    ensures NextOpSpec([Special('(')] + w + [Special(')')], true) == NextOpSpec(w, true)
    ensures ParseNode([Special('(')] + w + [Special(')')], true) == ParseNode(w, true)
  {
    GroupingUnwraps(w);
    SameSplitSameParse([Special('(')] + w + [Special(')')], w, true);
  }

  /** Depths along `(a)`: 1, 1, then back to zero. */
  lemma OpenCloseDepths()
    ensures var t3 := [Special('('), Literal('a'), Special(')')];
      Depth(t3[..1]) == 1 && Depth(t3[..2]) == 1 && Depth(t3) == 0 && Count(t3, '(') == 1
  {
    var t3 := [Special('('), Literal('a'), Special(')')];
    assert t3[..0] == [] && t3[..3] == t3;
    DepthStep(t3, 0);
    DepthStep(t3, 1);
    DepthStep(t3, 2);
  }

  /** `(a)` is unwrapped under either rule, leaving the leaf `a`. */
  lemma SingleParenthesesSplit(corrected: bool)
    ensures NextOpSpec([Special('('), Literal('a'), Special(')')], corrected) == Ok(Split([Literal('a')], Leaf, []))
  {
    var o, a, c := Special('('), Literal('a'), Special(')');
    var t3 := [o, a, c];
    OpenCloseDepths();
    assert TopOr(t3) == None;
    assert GroupClose(t3) == 3 by {
      forall k | 1 <= k <= 2
        ensures Depth(t3[..k]) != 0
      {
      }
    }
    assert Wrapped(t3, corrected);
    assert t3[1..2] == [a];
  }

  /** `(a)` parses to the leaf `a` under either rule. */
  lemma SingleParenthesesParsed(corrected: bool)
    ensures ParseNode([Special('('), Literal('a'), Special(')')], corrected) == Ok(Value('a'))
  {
    SingleParenthesesSplit(corrected);
  }

  /** Depths along `((a)`: 1, 2, 2, 1, never back to zero. */
  lemma OpenOpenDepths()
    ensures var left := [Special('('), Special('('), Literal('a'), Special(')')];
      Depth(left[..1]) == 1 && Depth(left[..2]) == 2 && Depth(left[..3]) == 2 && Depth(left) == 1 && Count(left, '(') == 2
  {
    var left := [Special('('), Special('('), Literal('a'), Special(')')];
    assert left[..0] == [] && left[..4] == left;
    DepthStep(left, 0);
    DepthStep(left, 1);
    DepthStep(left, 2);
    DepthStep(left, 3);
  }

  /** `((a))` under the rule as written: the first operand runs up to the last `)`, which is taken for a closure. */
  lemma DoubleParenthesesSplit()
    ensures var t5 := [Special('('), Special('('), Literal('a'), Special(')'), Special(')')];
      NextOpSpec(t5, false) == Ok(Split(t5[..4], Star, [])) && Unclosed(t5[..4])
  {
    var o, a, c := Special('('), Literal('a'), Special(')');
    var t5 := [o, o, a, c, c];
    var left := t5[..4];
    assert left == [o, o, a, c];
    OpenOpenDepths();
    assert Unclosed(left) by {
      assert left[..4] == left;
    }
    assert Count(t5, '(') == 2 by {
      assert t5[..5] == t5;
      CountStep(t5, 4, '(');
    }
    assert GroupClose(t5) == 5 by {
      forall k | 1 <= k <= 4
        ensures Depth(t5[..k]) != 0
      {
        assert t5[..k] == left[..k];
      }
    }
    assert TopOr(t5) == None;
  }

  /** A star split whose operand fails to parse fails the same way. */
  lemma StarSplitFails(ts: seq<Token>, left: seq<Token>, corrected: bool)
    requires NextOpSpec(ts, corrected) == Ok(Split(left, Star, [])) && ParseNode(left, corrected).Err?
    ensures ParseNode(ts, corrected) == ParseNode(left, corrected)
  {
  }

  /** `((a))`: the code as written rejects a doubly parenthesised literal that `(a)` parses. */
  lemma DoubleParenthesesRejected()
    ensures ParseNode([Special('('), Literal('a'), Special(')')], false) == Ok(Value('a'))
    ensures ParseNode([Special('('), Special('('), Literal('a'), Special(')'), Special(')')], false) == Err(Expression)
  {
    SingleParenthesesParsed(false);
    var t5 := [Special('('), Special('('), Literal('a'), Special(')'), Special(')')];
    DoubleParenthesesSplit();
    UnclosedFails(t5[..4], false);
    StarSplitFails(t5, t5[..4], false);
  }

  /** A literal in parentheses is balanced. */
  lemma GroupOfLetterBalanced()
    ensures Balanced([Special('('), Literal('a'), Special(')')])
  {
    var w := [Special('('), Literal('a'), Special(')')];
    assert w[..0] == [];
    DepthStep(w, 0);
    DepthStep(w, 1);
    DepthStep(w, 2);
    assert w[..3] == w;
  }

  /** `((a))`: the corrected rule strips both pairs. */
  lemma DoubleParenthesesAccepted()
    ensures ParseNode([Special('('), Special('('), Literal('a'), Special(')'), Special(')')], true) == Ok(Value('a'))
  {
    var o, a, c := Special('('), Literal('a'), Special(')');
    var w := [o, a, c];
    GroupOfLetterBalanced();
    GroupingTransparent(w);
    assert [o] + w + [c] == [o, o, a, c, c];
    SingleParenthesesParsed(true);
  }

  /** `\**`: a closure of an escaped star. The tag test mistakes the leaf `*` for a closure and drops the outer one, so the empty word is lost. */
  lemma EscapedStarClosureLost()
    ensures Parse("\\**", false) == Ok(Ast(Value('*')))
    ensures Parse("\\**", true) == Ok(Ast(Clini(Value('*'))))
    ensures Matches(Clini(Value('*')), "") && !Matches(Value('*'), "")
  {
    var ts := [Literal('*'), Special('*')];
    assert ScanFrom("\\**", false) == Ok(ts) by {
      var s := "\\**";
      assert s[1..] == "**" && s[1..][1..] == "*" && s[1..][1..][1..] == "";
      assert ScanFrom(s[1..][1..][1..], false) == Ok([]);
      assert '*' in SpecialSymbols && '*' in EscapedSymbols;
      assert s[1..][1..][0] == '*' && s[1..][0] == '*';
      assert [Special('*')] + [] == [Special('*')] && [Literal('*')] + [Special('*')] == ts;
      assert ScanFrom(s[1..][1..], false) == Ok([Special('*')]);
      assert ScanFrom(s[1..], true) == Ok(ts);
    }
    assert TopOr(ts) == None;
    assert ts[..1] == [Literal('*')] && ts[..0] == [];
    assert Count(ts, '(') == 0 && Count(ts, ')') == 0;
    assert NextOpSpec(ts, false) == Ok(Split([Literal('*')], Star, []));
    assert NextOpSpec(ts, true) == Ok(Split([Literal('*')], Star, []));
  }

  /** `*|a`: an operator where an operand is due raises the base `ExpressionError`, not `EmptySubExpressionError`. */
  lemma LeadingStarRejected()
    ensures ParseNode([Special('*'), Special('|'), Literal('a')], false) == Err(Expression)
  {
    var ts := [Special('*'), Special('|'), Literal('a')];
    assert ts[..1] == [Special('*')] && ts[..0] == [];
    assert IsTopOr(ts, 1);
    assert TopOr(ts) == Some(1);
  }

  /** The empty pattern is rejected with EmptySubExpressionError, under either rule. */
  lemma EmptyPatternRejected(corrected: bool)
    ensures Parse("", corrected) == Err(EmptySubExpression)
  {
  }
}
