/**
 * The grammar `parse_node` follows (ast/parser.py:42-110), read off the splits `next_op`
 * makes, with the repaired rule for dropping an outer pair of parentheses:
 *
 *   expr   := term '|' expr | term      the first '|' outside parentheses splits
 *   term   := factor term | factor      the first factor splits off
 *   factor := atom '*'*                 each '*' one closure, the innermost first
 *   atom   := literal | '(' expr ')'
 *
 * `Spell` writes a tree in this grammar with the fewest parentheses. Parsing what it
 * writes gives the tree back, so '*' binds tighter than concatenation, concatenation
 * tighter than '|', parentheses override both, and after `optimize` a run of '*' is one
 * closure.
 */
module Grammar {
  import opened Outcomes
  import opened Scanner
  import opened Tree
  import opened Parser

  /** The three levels of the grammar. */
  datatype Level = ExprLevel | TermLevel | FactorLevel

  function Rank(lvl: Level): nat {
    match lvl
    case ExprLevel => 0
    case TermLevel => 1
    case FactorLevel => 2
  }

  function Paren(w: seq<Token>): seq<Token> {
    [Special('(')] + w + [Special(')')]
  }

  /** `k` star tokens. */
  function Stars(k: nat): seq<Token> {
    if k == 0 then [] else Stars(k - 1) + [Special('*')]
  }

  /** The tree under a chain of closures, and the length of that chain. */
  function Base(n: Node): Node {
    if n.Clini? then Base(n.child) else n
  }

  function StarCount(n: Node): nat {
    if n.Clini? then StarCount(n.child) + 1 else 0
  }

  /** `n` under `k` closures. */
  function Closures(n: Node, k: nat): Node {
    if k == 0 then n else Clini(Closures(n, k - 1))
  }

  /** The tokens of `n` written at level `lvl`: parentheses only where the level demands them. */
  function Spell(n: Node, lvl: Level): seq<Token> {
    match n
    case Value(c) => [Literal(c)]
    case Decision(l, r) =>
      var e := Spell(l, TermLevel) + [Special('|')] + Spell(r, ExprLevel);
      if lvl == ExprLevel then e else Paren(e)
    case Concatenation(l, r) =>
      var e := Spell(l, FactorLevel) + Spell(r, TermLevel);
      if lvl == FactorLevel then Paren(e) else e
    case Clini(c) => Spell(c, FactorLevel) + [Special('*')]
  }

  /** No '|' outside every parenthesis. */
  predicate NoTopOr(ts: seq<Token>) {
    forall j | 0 <= j < |ts| :: !IsTopOr(ts, j)
  }

  /** Starts like an atom: a literal or an opening parenthesis. */
  predicate Opens(ts: seq<Token>) {
    |ts| >= 1 && (ts[0].Literal? || ts[0] == Special('('))
  }

  /** The depth after a prefix of `a + b`. */
  lemma DepthAppend(a: seq<Token>, b: seq<Token>, k: nat)
    requires k <= |a| + |b|
    ensures Depth((a + b)[..k]) == if k <= |a| then Depth(a[..k]) else Depth(a) + Depth(b[..k - |a|])
  {
    if k <= |a| {
      assert (a + b)[..k] == a[..k];
    } else {
      assert (a + b)[..k] == a + b[..k - |a|];
      CountAppend(a, b[..k - |a|], '(');
      CountAppend(a, b[..k - |a|], ')');
    }
  }

  lemma BalancedAppend(a: seq<Token>, b: seq<Token>)
    requires Balanced(a) && Balanced(b)
    ensures Balanced(a + b)
  {
    forall k | 0 <= k <= |a + b|
      ensures Depth((a + b)[..k]) >= 0
    {
      DepthAppend(a, b, k);
      assert a[..|a|] == a;
    }
    DepthAppend(a, b, |a + b|);
    assert (a + b)[..|a + b|] == a + b && a[..|a|] == a && b[..|b|] == b;
  }

  lemma NoTopOrAppend(a: seq<Token>, b: seq<Token>)
    requires Depth(a) == 0 && NoTopOr(a) && NoTopOr(b)
    ensures NoTopOr(a + b)
  {
    forall j | 0 <= j < |a + b|
      ensures !IsTopOr(a + b, j)
    {
      DepthAppend(a, b, j);
      if j < |a| {
        assert !IsTopOr(a, j);
      } else {
        assert (a + b)[j] == b[j - |a|];
        assert !IsTopOr(b, j - |a|);
      }
    }
  }

  /** A single token that is neither a parenthesis nor '|'. */
  lemma PlainToken(t: Token)
    requires t != Special('(') && t != Special(')') && t != Special('|')
    ensures Balanced([t]) && NoTopOr([t])
  {
    assert [t][..0] == [] && [t][..1] == [t];
    DepthStep([t], 0);
  }

  /** A balanced window in parentheses is balanced, has no top-level '|', and stays above depth 0 inside. */
  lemma ParenFacts(w: seq<Token>)
    requires Balanced(w)
    ensures Balanced(Paren(w)) && NoTopOr(Paren(w))
    ensures forall j | 1 <= j < |Paren(w)| :: Depth(Paren(w)[..j]) >= 1
  {
    var t := Paren(w);
    GroupingDepths(w);
    assert t[..0] == [] && t[..|t|] == t;
  }

  /** The group a parenthesised window opens closes at its own end, whatever follows. */
  lemma GroupCloseParen(w: seq<Token>, b: seq<Token>)
    requires Balanced(w)
    ensures GroupClose(Paren(w) + b) == |Paren(w)|
  {
    var t := Paren(w);
    ParenFacts(w);
    DepthAppend(t, b, |t|);
    assert t[..|t|] == t;
    forall j | 0 < j < |t|
      ensures Depth((t + b)[..j]) != 0
    {
      DepthAppend(t, b, j);
    }
  }

  /** A window that starts with a balanced part: its first group closes inside that part. */
  lemma ClosesEarly(a: seq<Token>, b: seq<Token>)
    requires Balanced(a) && |a| >= 1 && |b| >= 1
    ensures GroupClose(a + b) <= |a| < |a + b|
  {
    DepthAppend(a, b, |a|);
    assert a[..|a|] == a;
  }

  lemma StarsFacts(k: nat)
    ensures |Stars(k)| == k && forall i | 0 <= i < k :: Stars(k)[i] == Special('*')
  {
    if k > 0 {
      StarsFacts(k - 1);
    }
  }

  /** Two balanced parts joined by '|' are balanced. */
  lemma OrJoinBalanced(a: seq<Token>, b: seq<Token>)
    requires Balanced(a) && Balanced(b)
    ensures Balanced(a + [Special('|')] + b)
  {
    assert [Special('|')][..0] == [] && [Special('|')][..1] == [Special('|')];
    DepthStep([Special('|')], 0);
    BalancedAppend(a, [Special('|')]);
    BalancedAppend(a + [Special('|')], b);
  }

  /** Balanced, well formed, and starting like an atom. */
  predicate Spelled(s: seq<Token>) {
    Balanced(s) && Opens(s) && forall t | t in s :: WellFormed(t)
  }

  /** Spelled tokens are balanced, well formed and start like an atom; below the top level no '|' is outside parentheses. */
  lemma {:induction false} SpellFacts(n: Node, lvl: Level)
    ensures var s := Spell(n, lvl);
      Balanced(s) && Opens(s) && (lvl != ExprLevel ==> NoTopOr(s)) && forall t | t in s :: WellFormed(t)
    decreases n, Rank(lvl)
  {
    match n
    case Value(c) =>
      PlainToken(Literal(c));
    case Decision(l, r) =>
      SpellFacts(l, TermLevel);
      SpellFacts(r, ExprLevel);
      OrJoinFacts(Spell(l, TermLevel), Spell(r, ExprLevel));
      if lvl != ExprLevel {
        ParenWrapFacts(Spell(l, TermLevel) + [Special('|')] + Spell(r, ExprLevel));
      }
    case Concatenation(l, r) =>
      SpellFacts(l, FactorLevel);
      SpellFacts(r, TermLevel);
      JoinFacts(Spell(l, FactorLevel), Spell(r, TermLevel));
      if lvl == FactorLevel {
        ParenWrapFacts(Spell(l, FactorLevel) + Spell(r, TermLevel));
      }
    case Clini(c) =>
      SpellFacts(c, FactorLevel);
      StarFacts(Spell(c, FactorLevel));
  }

  /** The spelling of a decision from spelled sides. */
  lemma OrJoinFacts(a: seq<Token>, b: seq<Token>)
    requires Spelled(a) && Spelled(b)
    ensures Spelled(a + [Special('|')] + b)
  {
    OrJoinBalanced(a, b);
    var e := a + [Special('|')] + b;
    assert forall t | t in e :: t in a || t == Special('|') || t in b;
  }

  /** The spelling of a group from a spelled inside. */
  lemma ParenWrapFacts(e: seq<Token>)
    requires Balanced(e) && forall t | t in e :: WellFormed(t)
    ensures Spelled(Paren(e)) && NoTopOr(Paren(e))
  {
    ParenFacts(e);
    assert forall t | t in Paren(e) :: t in e || t == Special('(') || t == Special(')');
  }

  /** The spelling of a concatenation from spelled parts. */
  lemma JoinFacts(a: seq<Token>, b: seq<Token>)
    requires Spelled(a) && Spelled(b) && NoTopOr(a) && NoTopOr(b)
    ensures Spelled(a + b) && NoTopOr(a + b)
  {
    BalancedAppend(a, b);
    NoTopOrAppend(a, b);
    assert forall t | t in a + b :: t in a || t in b;
  }

  /** The spelling of a closure from a spelled factor. */
  lemma StarFacts(a: seq<Token>)
    requires Spelled(a) && NoTopOr(a)
    ensures Spelled(a + [Special('*')]) && NoTopOr(a + [Special('*')])
  {
    PlainToken(Special('*'));
    BalancedAppend(a, [Special('*')]);
    NoTopOrAppend(a, [Special('*')]);
    assert forall t | t in a + [Special('*')] :: t in a || t == Special('*');
  }

  /** A factor is its atom followed by one star per closure around it. */
  lemma {:induction false} FactorShape(n: Node)
    ensures Spell(n, FactorLevel) == Spell(Base(n), FactorLevel) + Stars(StarCount(n))
  {
    if n.Clini? {
      FactorShape(n.child);
    }
  }

  /** The first operand `next_op` finds in a window that starts with a factor is the factor's atom. */
  lemma {:induction false} OperandOfFactor(n: Node, b: seq<Token>)
    ensures |Spell(n, FactorLevel) + b| >= 1
    ensures OperandEnd(Spell(n, FactorLevel) + b) == |Spell(Base(n), FactorLevel)|
  {
    match n
    case Value(c) =>
      assert (Spell(n, FactorLevel) + b)[0] == Literal(c);
    case Clini(c) =>
      assert Spell(n, FactorLevel) + b == Spell(c, FactorLevel) + ([Special('*')] + b);
      OperandOfFactor(c, [Special('*')] + b);
    case Decision(_, _) =>
      GroupOperand(n, b);
    case Concatenation(_, _) =>
      GroupOperand(n, b);
  }

  /** A parenthesised factor is a whole first operand. */
  lemma GroupOperand(n: Node, b: seq<Token>)
    requires n.Decision? || n.Concatenation?
    ensures |Spell(n, FactorLevel) + b| >= 1
    ensures OperandEnd(Spell(n, FactorLevel) + b) == |Spell(n, FactorLevel)|
  {
    var w := Spell(n, ExprLevel);
    SpellFacts(n, ExprLevel);
    assert Spell(n, FactorLevel) == Paren(w);
    GroupCloseParen(w, b);
    assert (Paren(w) + b)[0] == Special('(');
  }

  /** The star loop of `next_op` stops right after a run of stars when no star follows. */
  lemma SkipStarRun(a: seq<Token>, k: nat, b: seq<Token>)
    requires b == [] || b[0] != Special('*')
    ensures SkipStars(a + Stars(k) + b, |a|) == |a| + k
  {
    StarsFacts(k);
    var s := a + Stars(k) + b;
    var r := SkipStars(s, |a|);
    assert forall i | |a| <= i < |a| + k :: s[i] == Special('*');
    if |a| + k < |s| {
      assert s[|a| + k] == b[0];
    }
  }

  /** The split `next_op` makes of a factor followed by `b`: the factor, then what follows. */
  lemma FactorSplit(n: Node, b: seq<Token>)
    requires b == [] || b[0] != Special('*')
    ensures SkipStars(Spell(n, FactorLevel) + b, OperandEnd(Spell(n, FactorLevel) + b)) == |Spell(n, FactorLevel)|
  {
    OperandOfFactor(n, b);
    FactorShape(n);
    StarsFacts(StarCount(n));
    SkipStarRun(Spell(Base(n), FactorLevel), StarCount(n), b);
  }

  /** The first '|' after a part with none outside parentheses is the one `get_or_op` finds. */
  lemma OrAt(a: seq<Token>, b: seq<Token>)
    requires Balanced(a) && NoTopOr(a)
    ensures TopOr(a + [Special('|')] + b) == Some(|a|)
  {
    var s := a + [Special('|')] + b;
    assert s[..|a|] == a;
    assert IsTopOr(s, |a|);
    forall j | 0 <= j < |a|
      ensures !IsTopOr(s, j)
    {
      assert s[..j] == a[..j] && s[j] == a[j];
      assert !IsTopOr(a, j);
    }
  }

  /** A parenthesised group parses as its contents. */
  lemma GroupParse(n: Node, lvl: Level)
    requires !n.Value? && !n.Clini? && (n.Decision? ==> lvl != ExprLevel) && (n.Concatenation? ==> lvl == FactorLevel)
    ensures Spell(n, lvl) == Paren(Spell(n, ExprLevel))
    ensures ParseNode(Spell(n, lvl), true) == ParseNode(Spell(n, ExprLevel), true)
  {
    SpellFacts(n, ExprLevel);
    GroupingTransparent(Spell(n, ExprLevel));
  }

  /** `next_op` splits a spelled decision at its own '|'. */
  lemma DecisionSplits(l: Node, r: Node)
    ensures NextOpSpec(Spell(Decision(l, r), ExprLevel), true) == Ok(Split(Spell(l, TermLevel), Or, Spell(r, ExprLevel)))
  {
    var a, b := Spell(l, TermLevel), Spell(r, ExprLevel);
    var s := a + [Special('|')] + b;
    assert Spell(Decision(l, r), ExprLevel) == s;
    SpellFacts(l, TermLevel);
    OrAt(a, b);
    assert |s| >= 2;
    assert s[..|a|] == a && s[|a| + 1..] == b;
    assert NextOpSpec(s, true) == Ok(Split(s[..|a|], Or, s[|a| + 1..]));
  }

  /** `next_op` splits a spelled concatenation after its first factor. */
  lemma ConcatenationSplits(l: Node, r: Node, lvl: Level)
    requires lvl != FactorLevel
    ensures NextOpSpec(Spell(Concatenation(l, r), lvl), true) == Ok(Split(Spell(l, FactorLevel), Concat, Spell(r, TermLevel)))
  {
    var a, b := Spell(l, FactorLevel), Spell(r, TermLevel);
    var s := a + b;
    assert Spell(Concatenation(l, r), lvl) == s;
    SpellFacts(l, FactorLevel);
    SpellFacts(r, TermLevel);
    JoinUnsplit(a, b);
    FactorSplit(l, b);
    assert s[|a|] == b[0];
    ConcatenationAt(s, |a|);
    assert s[..|a|] == a && s[|a|..] == b;
  }

  /** A window with no top-level '|' that is not one group splits where its first operand and stars end. */
  lemma ConcatenationAt(s: seq<Token>, k: nat)
    requires |s| >= 2 && TopOr(s) == None && !Wrapped(s, true)
    requires SkipStars(s, OperandEnd(s)) == k < |s| && !IsSpecSymb(s[k], '|')
    ensures NextOpSpec(s, true) == Ok(Split(s[..k], Concat, s[k..]))
  {
  }

  /** Two balanced parts, the second opening like an atom, form a window with no top-level '|' that is not one group. */
  lemma JoinUnsplit(a: seq<Token>, b: seq<Token>)
    requires Balanced(a) && Balanced(b) && NoTopOr(a) && NoTopOr(b) && Opens(a) && Opens(b)
    ensures |a + b| >= 2 && TopOr(a + b) == None && !Wrapped(a + b, true)
  {
    NoTopOrAppend(a, b);
    ClosesEarly(a, b);
  }

  /** `next_op` splits a spelled closure before its last star. */
  lemma ClosureSplits(c: Node, lvl: Level)
    ensures NextOpSpec(Spell(Clini(c), lvl), true) == Ok(Split(Spell(c, FactorLevel), Star, []))
  {
    var a := Spell(c, FactorLevel);
    var s := a + [Special('*')];
    assert Spell(Clini(c), lvl) == s;
    SpellFacts(c, FactorLevel);
    PlainToken(Special('*'));
    NoTopOrAppend(a, [Special('*')]);
    TrailingStarRun(c);
    assert TopOr(s) == None;
    assert !Wrapped(s, true) by {
      assert s[|s| - 1] == Special('*');
    }
    assert s[..|s| - 1] == a;
  }

  /** In a spelled closure, the stars after the first operand run to the end of the window. */
  lemma TrailingStarRun(c: Node)
    ensures var s := Spell(c, FactorLevel) + [Special('*')];
      |s| >= 2 && SkipStars(s, OperandEnd(s)) == |s|
  {
    var s := Spell(c, FactorLevel) + [Special('*')];
    var base := Spell(Base(c), FactorLevel);
    var k := StarCount(c) + 1;
    SpellFacts(c, FactorLevel);
    OperandOfFactor(c, [Special('*')]);
    FactorShape(c);
    assert Stars(k) == Stars(StarCount(c)) + [Special('*')];
    assert s == base + Stars(k) + [];
    SkipStarRun(base, k, []);
    StarsFacts(k);
  }

  /**
   * Parsing a spelled tree gives the tree back: `parse_node` with the repaired unwrapping
   * is the inverse of `Spell`, at every level of the grammar.
   */
  lemma {:induction false} ParseSpelling(n: Node, lvl: Level)
    ensures ParseNode(Spell(n, lvl), true) == Ok(n)
    decreases n, Rank(lvl)
  {
    var s := Spell(n, lvl);
    match n
    case Value(c) =>
      assert NextOpSpec(s, true) == Ok(Split(s, Leaf, []));
    case Decision(l, r) =>
      if lvl == ExprLevel {
        DecisionSplits(l, r);
        ParseSpelling(l, TermLevel);
        ParseSpelling(r, ExprLevel);
      } else {
        GroupParse(n, lvl);
        ParseSpelling(n, ExprLevel);
      }
    case Concatenation(l, r) =>
      if lvl == FactorLevel {
        GroupParse(n, lvl);
        ParseSpelling(n, ExprLevel);
      } else {
        ConcatenationSplits(l, r, lvl);
        ParseSpelling(l, FactorLevel);
        ParseSpelling(r, TermLevel);
      }
    case Clini(c) =>
      ClosureSplits(c, lvl);
      ParseSpelling(c, FactorLevel);
  }

  /** `parse` of a spelled tree's pattern text gives the tree, nested closures at the root collapsed. */
  lemma ParseOfSpelling(n: Node)
    ensures Parse(Unscan(Spell(n, ExprLevel)), true) == Ok(Ast(OptimizeClosures(n)))
  {
    var ts := Spell(n, ExprLevel);
    SpellFacts(n, ExprLevel);
    ScanUnscan(ts);
    ParseSpelling(n, ExprLevel);
  }

  /** A tree spelled without '(' parses back to itself under either rule. */
  lemma UngroupedSpelling(n: Node)
    requires Special('(') !in Spell(n, ExprLevel)
    ensures ParseNode(Spell(n, ExprLevel), true) == Ok(n) && ParseNode(Spell(n, ExprLevel), false) == Ok(n)
  {
    ParseSpelling(n, ExprLevel);
    NoGroupSameParse(Spell(n, ExprLevel));
  }

  /** `a|b|c` is a decision whose right side is again a decision: '|' groups to the right, under either rule. */
  lemma OrGroupsRight()
    ensures var ts := [Literal('a'), Special('|'), Literal('b'), Special('|'), Literal('c')];
      var n := Decision(Value('a'), Decision(Value('b'), Value('c')));
      ParseNode(ts, true) == Ok(n) && ParseNode(ts, false) == Ok(n)
  {
    var ts := [Literal('a'), Special('|'), Literal('b'), Special('|'), Literal('c')];
    var n := Decision(Value('a'), Decision(Value('b'), Value('c')));
    assert Spell(Decision(Value('b'), Value('c')), ExprLevel) == [Literal('b'), Special('|'), Literal('c')];
    assert Spell(n, ExprLevel) == ts;
    UngroupedSpelling(n);
  }

  /** `ab|c` is a decision over a concatenation: concatenation binds tighter than '|', under either rule. */
  lemma ConcatenationBindsTighter()
    ensures var ts := [Literal('a'), Literal('b'), Special('|'), Literal('c')];
      var n := Decision(Concatenation(Value('a'), Value('b')), Value('c'));
      ParseNode(ts, true) == Ok(n) && ParseNode(ts, false) == Ok(n)
  {
    var ts := [Literal('a'), Literal('b'), Special('|'), Literal('c')];
    var n := Decision(Concatenation(Value('a'), Value('b')), Value('c'));
    assert Spell(Concatenation(Value('a'), Value('b')), TermLevel) == [Literal('a'), Literal('b')];
    assert Spell(n, ExprLevel) == ts;
    UngroupedSpelling(n);
  }

  /**
   * As written, `(b|c)` holds exactly one '(' and is wrapped, so its parentheses are dropped
   * and it parses like `b|c`.
   */
  lemma WrappedDecisionAsWritten()
    ensures ParseNode([Special('('), Literal('b'), Special('|'), Literal('c'), Special(')')], false)
      == Ok(Decision(Value('b'), Value('c')))
  {
    var d := Decision(Value('b'), Value('c'));
    var inner := [Literal('b'), Special('|'), Literal('c')];
    assert Spell(d, ExprLevel) == inner;
    SpellFacts(d, ExprLevel);
    UngroupedSpelling(d);
    ParenFacts(inner);
    UnwrapAsWritten(inner);
    SameSplitSameParse(Paren(inner), inner, false);
    assert Paren(inner) == [Special('('), Literal('b'), Special('|'), Literal('c'), Special(')')];
  }

  /** A window without '(' has none to count. */
  lemma {:induction false} NoOpenCount(w: seq<Token>)
    requires Special('(') !in w
    ensures Count(w, '(') == 0
  {
    if w != [] {
      assert forall t | t in w[..|w| - 1] :: t in w;
      NoOpenCount(w[..|w| - 1]);
    }
  }

  /** As written, parentheses around a balanced window without '(' are dropped. */
  lemma UnwrapAsWritten(w: seq<Token>)
    requires Balanced(w) && NoTopOr(Paren(w)) && Special('(') !in w
    ensures NextOpSpec(Paren(w), false) == NextOpSpec(w, false)
  {
    var g := Paren(w);
    NoOpenCount(w);
    CountAppend([Special('(')], w, '(');
    CountAppend([Special('(')] + w, [Special(')')], '(');
    assert [Special('(')][..0] == [] && [Special(')')][..0] == [];
    assert Count(g, '(') == 1;
    assert g[1..|g| - 1] == w;
  }

  /** As written, `a(b|c)` splits after `a`, with the group as the right operand. */
  lemma LetterThenGroupSplits()
    ensures NextOpSpec([Literal('a'), Special('('), Literal('b'), Special('|'), Literal('c'), Special(')')], false)
      == Ok(Split([Literal('a')], Concat, [Special('('), Literal('b'), Special('|'), Literal('c'), Special(')')]))
  {
    var inner := [Literal('b'), Special('|'), Literal('c')];
    var g := Paren(inner);
    var ts := [Literal('a')] + g;
    assert g == [Special('('), Literal('b'), Special('|'), Literal('c'), Special(')')];
    assert Spell(Decision(Value('b'), Value('c')), ExprLevel) == inner;
    SpellFacts(Decision(Value('b'), Value('c')), ExprLevel);
    ParenFacts(inner);
    PlainToken(Literal('a'));
    NoTopOrAppend([Literal('a')], g);
    assert TopOr(ts) == None;
    assert !Wrapped(ts, false);
    assert OperandEnd(ts) == 1;
    assert SkipStars(ts, 1) == 1 by {
      assert !IsSpecSymb(ts[1], '*');
    }
    assert !IsSpecSymb(ts[1], '|');
    assert ts[..1] == [Literal('a')] && ts[1..] == g;
    assert NextOpSpec(ts, false) == Ok(Split(ts[..1], Concat, ts[1..]));
    assert ts == [Literal('a'), Special('('), Literal('b'), Special('|'), Literal('c'), Special(')')];
  }

  /** A concatenation split parses to the concatenation of its operands when both parse. */
  lemma ConcatenationOfParts(ts: seq<Token>, l: seq<Token>, r: seq<Token>, corrected: bool)
    requires NextOpSpec(ts, corrected) == Ok(Split(l, Concat, r))
    requires ParseNode(l, corrected).Ok? && ParseNode(r, corrected).Ok?
    ensures ParseNode(ts, corrected) == Ok(Concatenation(ParseNode(l, corrected).value, ParseNode(r, corrected).value))
  {
  }

  /** A one-letter window parses to that letter, under either rule. */
  lemma LetterParses(c: char, corrected: bool)
    ensures ParseNode([Literal(c)], corrected) == Ok(Value(c))
  {
    assert NextOpSpec([Literal(c)], corrected) == Ok(Split([Literal(c)], Leaf, []));
  }

  /** As written, `a(b|c)` parses to the concatenation of `a` and the decision of `b` and `c`. */
  lemma LetterThenGroupAsWritten()
    ensures ParseNode([Literal('a'), Special('('), Literal('b'), Special('|'), Literal('c'), Special(')')], false)
      == Ok(Concatenation(Value('a'), Decision(Value('b'), Value('c'))))
  {
    LetterThenGroupSplits();
    WrappedDecisionAsWritten();
    LetterParses('a', false);
    ConcatenationOfParts([Literal('a'), Special('('), Literal('b'), Special('|'), Literal('c'), Special(')')],
      [Literal('a')], [Special('('), Literal('b'), Special('|'), Literal('c'), Special(')')], false);
  }

  /** `a(b|c)` is a concatenation over a decision: parentheses override, under either rule. */
  lemma ParenthesesOverride()
    ensures var ts := [Literal('a'), Special('('), Literal('b'), Special('|'), Literal('c'), Special(')')];
      var n := Concatenation(Value('a'), Decision(Value('b'), Value('c')));
      ParseNode(ts, true) == Ok(n) && ParseNode(ts, false) == Ok(n)
  {
    var d := Decision(Value('b'), Value('c'));
    var n := Concatenation(Value('a'), d);
    assert Spell(d, ExprLevel) == [Literal('b'), Special('|'), Literal('c')];
    assert Spell(d, TermLevel) == Paren(Spell(d, ExprLevel));
    assert Spell(n, ExprLevel) == [Literal('a'), Special('('), Literal('b'), Special('|'), Literal('c'), Special(')')];
    ParseSpelling(n, ExprLevel);
    LetterThenGroupAsWritten();
  }

  /** `ab*` is a concatenation whose right side is the closure: '*' binds tighter than concatenation, under either rule. */
  lemma StarBindsTighter()
    ensures var ts := [Literal('a'), Literal('b'), Special('*')];
      var n := Concatenation(Value('a'), Clini(Value('b')));
      ParseNode(ts, true) == Ok(n) && ParseNode(ts, false) == Ok(n)
  {
    var ts := [Literal('a'), Literal('b'), Special('*')];
    var n := Concatenation(Value('a'), Clini(Value('b')));
    assert Spell(n, ExprLevel) == ts;
    UngroupedSpelling(n);
  }

  /** The first '|' outside parentheses makes a decision of the two sides, whichever rule unwraps groups. */
  lemma TopOrDecides(ts: seq<Token>, corrected: bool)
    requires TopOr(ts).Some? && |ts| >= 2
    ensures var p := TopOr(ts).value;
      var l, r := ParseNode(ts[..p], corrected), ParseNode(ts[p + 1..], corrected);
      && (ParseNode(ts, corrected).Ok? <==> l.Ok? && r.Ok?)
      && (ParseNode(ts, corrected).Ok? ==> ParseNode(ts, corrected).value == Decision(l.value, r.value))
  {
  }

  /** The operands `next_op` returns hold only tokens of the window. */
  lemma {:induction false} SplitTokens(ts: seq<Token>, corrected: bool)
    ensures var r := NextOpSpec(ts, corrected);
      r.Ok? ==> (forall t | t in r.value.left :: t in ts) && (forall t | t in r.value.right :: t in ts)
    decreases |ts|
  {
    if |ts| >= 2 && TopOr(ts).None? && Wrapped(ts, corrected) {
      SplitTokens(ts[1..|ts| - 1], corrected);
    }
  }

  /** A window without '(' parses alike under both rules: they differ only in unwrapping groups. */
  lemma {:induction false} NoGroupSameParse(ts: seq<Token>)
    requires Special('(') !in ts
    ensures ParseNode(ts, false) == ParseNode(ts, true)
    decreases |ts|
  {
    NextOpSplits(ts, true);
    SplitTokens(ts, true);
    if |ts| >= 2 {
      assert !Wrapped(ts, false) && !Wrapped(ts, true);
    }
    assert NextOpSpec(ts, false) == NextOpSpec(ts, true);
    var r := NextOpSpec(ts, true);
    if r.Ok? {
      var left, right := r.value.left, r.value.right;
      match r.value.op
      case Leaf =>
      case Star =>
        NoGroupSameParse(left);
      case Or =>
        NoGroupSameParse(left);
        NoGroupSameParse(right);
      case Concat =>
        NoGroupSameParse(left);
        if |left| > 0 {
          NoGroupSameParse(right);
        }
    }
  }

  /** A run of closures spelled as a run of stars: `optimize` leaves one closure under either rule. */
  lemma {:induction false} StarRunCollapses(n: Node, k: nat)
    requires k >= 1 && !n.Clini?
    ensures Spell(Closures(n, k), FactorLevel) == Spell(n, FactorLevel) + Stars(k)
    ensures OptimizeClosures(Closures(n, k)) == Clini(n)
    ensures Tag(n) != '*' ==> OptimizeNode(Closures(n, k)) == Clini(n)
  {
    if k > 1 {
      StarRunCollapses(n, k - 1);
    }
  }

  /** `x**…*` parses, with the repaired rules, to the single closure of `x`. */
  lemma ParseStarRun(n: Node, k: nat)
    requires k >= 1 && !n.Clini?
    ensures Parse(Unscan(Spell(n, FactorLevel) + Stars(k)), true) == Ok(Ast(Clini(n)))
  {
    StarRunCollapses(n, k);
    ParseOfSpelling(Closures(n, k));
  }

  /** `a` under `k` closures is spelled `a` and `k` stars, with no parenthesis. */
  lemma LetterStarsSpelling(k: nat)
    requires k >= 1
    ensures var ts := Spell(Closures(Value('a'), k), ExprLevel);
      ts == [Literal('a')] + Stars(k) && Special('(') !in ts
  {
    var ts := [Literal('a')] + Stars(k);
    StarRunCollapses(Value('a'), k);
    assert Spell(Closures(Value('a'), k), ExprLevel) == ts;
    StarsFacts(k);
    assert forall i | 1 <= i < |ts| :: ts[i] == Stars(k)[i - 1];
  }

  /** `a` followed by a run of stars parses, under either rule, to the single closure of `a`. */
  lemma LetterStarsParse(k: nat, corrected: bool)
    requires k >= 1
    ensures Parse(Unscan([Literal('a')] + Stars(k)), corrected) == Ok(Ast(Clini(Value('a'))))
  {
    var n := Closures(Value('a'), k);
    var ts := Spell(n, ExprLevel);
    LetterStarsSpelling(k);
    StarRunCollapses(Value('a'), k);
    SpellFacts(n, ExprLevel);
    ScanUnscan(ts);
    ParseSpelling(n, ExprLevel);
    NoGroupSameParse(ts);
  }

  /** The pattern texts `a*` and `a**` as letter-and-star token lists. */
  lemma LetterStarsText()
    ensures Unscan([Literal('a')] + Stars(1)) == "a*"
    ensures Unscan([Literal('a')] + Stars(2)) == "a**"
  {
    var star := Special('*');
    assert Stars(1) == [star] by {
      assert Stars(0) == [];
    }
    assert Stars(2) == [star, star];
    assert Unscan([star]) == "*" by {
      assert [star][1..] == [];
    }
    assert Unscan([star, star]) == "**" by {
      assert [star, star][1..] == [star];
    }
    assert ([Literal('a')] + [star])[1..] == [star];
    assert ([Literal('a')] + [star, star])[1..] == [star, star];
  }

  /** `a**` and `a*` parse to the same tree, the closure of `a`, under either rule. */
  lemma DoubleStarAsOne(corrected: bool)
    ensures Parse("a**", corrected) == Parse("a*", corrected) == Ok(Ast(Clini(Value('a'))))
  {
    LetterStarsText();
    LetterStarsParse(2, corrected);
    LetterStarsParse(1, corrected);
  }
}
