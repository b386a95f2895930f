/**
 * tranlator/translator.py: structural recursion over the syntax tree. A leaf becomes
 * `ValueAutomata`, a `*` node `CliniAutomata`, a `|` node `DecisionAutomata` and a `+`
 * node `ConcatenationAutomata` of the translated children (automata/ndautomata.py).
 * The same dispatch onto the combinators of automata/ndfa.py is given as well, with the
 * theorem that it accepts exactly the words the tree matches.
 */
module Translator {
  import opened Nfas
  import opened Tree
  import opened NdAutomata
  import Ndfa
  import NdfaLanguage

  /** `translate_node`: the automaton built for a node, on the ndautomata combinators. */
  ghost function TranslateSpec(n: Node): Nfa {
    match n
    case Value(c) => ValueSpec(c)
    case Concatenation(l, r) => ConcatenationSpec(TranslateSpec(l), TranslateSpec(r))
    case Decision(l, r) => DecisionSpec(TranslateSpec(l), TranslateSpec(r))
    case Clini(c) => CliniSpec(TranslateSpec(c))
  }

  /**
   * `translate_node(node)`: dispatch on the number of children and on `value()`. The
   * branches that raise cannot be reached: a one-child node is always tagged `*`, a
   * two-child node `|` or `+`, and no node has more than two children.
   */
  method TranslateNode(n: Node) returns (r: NDAutomata)
    ensures fresh(r) && fresh(r.trans)
    ensures r.Value() == TranslateSpec(n) && r.Valid() && r.states == {0}
    decreases n
  {
    var children := Children(n);
    if |children| == 0 {
      r := ValueAutomata(Tag(n));
    } else if |children| == 1 {
      if Tag(n) == '*' {
        var c := TranslateNode(children[0]);
        r := CliniAutomata(c);
      } else {
        assert false;
      }
    } else if |children| == 2 {
      if Tag(n) == '|' {
        var left := TranslateNode(children[0]);
        var right := TranslateNode(children[1]);
        r := DecisionAutomata(left, right);
      } else if Tag(n) == '+' {
        var left := TranslateNode(children[0]);
        var right := TranslateNode(children[1]);
        r := ConcatenationAutomata(left, right);
      } else {
        assert false;
      }
    } else {
      assert false;
    }
  }

  /** `translate(ast)`: the translation of the root. */
  method Translate(ast: Ast) returns (r: NDAutomata)
    ensures fresh(r) && r.Value() == TranslateSpec(ast.root) && r.Valid() && r.states == {0}
  {
    r := TranslateNode(ast.root);
  }

  /** The same dispatch onto the combinators of automata/ndfa.py. */
  ghost function TranslateNdfa(n: Node): Nfa {
    match n
    case Value(c) => Ndfa.ByValueSpec(c)
    case Concatenation(l, r) => Ndfa.ByConcatenationSpec(TranslateNdfa(l), TranslateNdfa(r))
    case Decision(l, r) => Ndfa.ByDecisionSpec(TranslateNdfa(l), TranslateNdfa(r))
    case Clini(c) => Ndfa.ByClosureSpec(TranslateNdfa(c))
  }

  /** An automaton for the language of `c` gives, through the star of its language, the language of `c*`. */
  lemma {:induction false} StarMatches(a: Nfa, c: Node, w: string)
    requires forall u :: Accepts(a, u) <==> Matches(c, u)
    ensures NdfaLanguage.StarOf(a, w) <==> Matches(Clini(c), w)
    decreases |w|
  {
    if w != [] {
      forall k | 1 <= k <= |w|
        ensures NdfaLanguage.StarOf(a, w[k..]) <==> Matches(Clini(c), w[k..])
      {
        StarMatches(a, c, w[k..]);
      }
    }
  }

  /** Translated onto the ndfa combinators, a tree is accepted on exactly the words it matches. */
  lemma {:induction false} TranslateNdfaLang(n: Node, w: string)
    ensures Accepts(TranslateNdfa(n), w) <==> Matches(n, w)
    decreases n
  {
    match n
    case Value(c) =>
      NdfaLanguage.ValueLang(c, w);
    case Decision(l, r) =>
      NdfaLanguage.DecisionLang(TranslateNdfa(l), TranslateNdfa(r), w);
      TranslateNdfaLang(l, w);
      TranslateNdfaLang(r, w);
    case Concatenation(l, r) =>
      NdfaLanguage.ConcatLang(TranslateNdfa(l), TranslateNdfa(r), w);
      forall k | 0 <= k <= |w|
        ensures Accepts(TranslateNdfa(l), w[..k]) <==> Matches(l, w[..k])
        ensures Accepts(TranslateNdfa(r), w[k..]) <==> Matches(r, w[k..])
      {
        TranslateNdfaLang(l, w[..k]);
        TranslateNdfaLang(r, w[k..]);
      }
    case Clini(c) =>
      NdfaLanguage.ClosureLang(TranslateNdfa(c), w);
      forall u
        ensures Accepts(TranslateNdfa(c), u) <==> Matches(c, u)
      {
        TranslateNdfaLang(c, u);
      }
      StarMatches(TranslateNdfa(c), c, w);
  }

  /** `a|b*` matches the empty word, but its translation rejects it: the closure's start 0 is shifted and no longer a start. */
  lemma DecisionWithClosureRejectsEmpty()
    ensures Matches(Decision(Value('a'), Clini(Value('b'))), [])
    ensures !Accepts(TranslateSpec(Decision(Value('a'), Clini(Value('b')))), [])
  {
    DecisionEmptyWord(ValueSpec('a'), TranslateSpec(Clini(Value('b'))));
  }

  /** The translation of `(a*b)*` has the loop `0 -a-> 0` and accepts at 0. */
  lemma ClosureOfConcatenationLoops()
    ensures Accepts(TranslateSpec(Clini(Concatenation(Clini(Value('a')), Value('b')))), "a")
  {
    var x := TranslateSpec(Concatenation(Clini(Value('a')), Value('b')));
    var a := CliniSpec(x);
    assert Move(0, 'a', 1) in TranslateSpec(Value('a')).moves;
    assert Move(0, 'a', 0) in TranslateSpec(Clini(Value('a'))).moves;
    assert Move(0, 'a', 0) in x.moves;
    assert Move(0, 'a', 0) in a.moves;
    PathOne(a.moves, 0, 'a', 0);
    assert 0 in a.starts && 0 in a.finals;
  }

  /** `(a*b)*` does not match `a`, but its translation accepts it: the loop `0 -a-> 0` of `a*` ends in the final 0. */
  lemma ClosureOfConcatenationAcceptsStray()
    ensures !Matches(Clini(Concatenation(Clini(Value('a')), Value('b'))), "a")
    ensures Accepts(TranslateSpec(Clini(Concatenation(Clini(Value('a')), Value('b')))), "a")
  {
    ClosureOfConcatenationMisses();
    ClosureOfConcatenationLoops();
  }

  /** A lone transition `0 -c-> 1` has biggest state 1. */
  lemma EndpointMaxOfValue(c: char)
    ensures EndpointMax({Move(0, c, 1)}) == 1
  {
    var t := {Move(0, c, 1)};
    assert Origins(t) == {0} && Ends(t) == {1};
    MaxOfUnique({1} + States(Nfa({}, {}, t)), 1);
  }

  lemma ShiftedLetter(c: char, shift: nat)
    ensures ShiftStates({1}, shift) == {1 + shift}
    ensures ShiftMoves({Move(0, c, 1)}, shift) == {Move(shift, c, 1 + shift)}
    ensures SharedStart({Move(0, c, 1)}, shift) == {Move(0, c, 1 + shift)}
  {
  }

  /** The translation of `a|b`. */
  lemma DecisionOfLettersBuilt()
    ensures TranslateSpec(Decision(Value('a'), Value('b')))
         == Nfa({0}, {1, 3}, {Move(0, 'a', 1), Move(2, 'b', 3), Move(0, 'b', 3)})
  {
    var l, r := ValueSpec('a'), ValueSpec('b');
    EndpointMaxOfValue('a');
    DecisionSpecWith(l, r, 2);
    ShiftedLetter('b', 2);
    var d := DecisionSpec(l, r);
    assert d.finals == {1, 3};
    assert d.moves == {Move(0, 'a', 1), Move(2, 'b', 3), Move(0, 'b', 3)};
  }

  /** The automaton built for `a|b` accepts `a` and `b` and rejects `ab`. */
  lemma DecisionOfLettersRun()
    ensures var a := Nfa({0}, {1, 3}, {Move(0, 'a', 1), Move(2, 'b', 3), Move(0, 'b', 3)});
      Accepts(a, "a") && Accepts(a, "b") && !Accepts(a, "ab")
  {
    assert "ab" == ['a'] + "b" && "b" == ['b'] + "";
    var m1, m2, m3 := Move(0, 'a', 1), Move(2, 'b', 3), Move(0, 'b', 3);
    var a := Nfa({0}, {1, 3}, {m1, m2, m3});
    PathOne(a.moves, 0, 'a', 1);
    PathOne(a.moves, 0, 'b', 3);
    StepOfThree(m1, m2, m3, {0}, 'a', {1});
    StepOfThree(m1, m2, m3, {1}, 'b', {});
    RunCons(a.moves, {0}, 'a', "b");
    RunCons(a.moves, {1}, 'b', "");
    RunAccepts(a, "ab");
  }

  /** `a|b` accepts `a` and `b` and rejects `ab`, as the repository's tests expect. */
  lemma DecisionOfLettersExpected()
    ensures var a := TranslateSpec(Decision(Value('a'), Value('b')));
      Accepts(a, "a") && Accepts(a, "b") && !Accepts(a, "ab")
  {
    DecisionOfLettersBuilt();
    DecisionOfLettersRun();
  }

  /** Stepping through a table of three transitions, one transition at a time. */
  lemma StepThree(m1: Move, m2: Move, m3: Move, s: set<nat>, c: char)
    ensures Step({m1, m2, m3}, s, c)
         == (if m1.origin in s && m1.symbol == c then {m1.end} else {})
          + (if m2.origin in s && m2.symbol == c then {m2.end} else {})
          + (if m3.origin in s && m3.symbol == c then {m3.end} else {})
  {
    assert {m1, m2, m3} == {m1} + {m2} + {m3};
    StepUnion({m1} + {m2}, {m3}, s, c);
    StepUnion({m1}, {m2}, s, c);
    StepSingle(m1, s, c);
    StepSingle(m2, s, c);
    StepSingle(m3, s, c);
  }

  /** The translation of `b*`: the loop `0 -b-> 0` next to `0 -b-> 1`; finals 0 and 1. */
  lemma ClosureOfLetterBuilt(c: char)
    ensures TranslateSpec(Clini(Value(c))) == Nfa({0}, {0, 1}, {Move(0, c, 0), Move(0, c, 1)})
  {
    var v := ValueSpec(c);
    assert EndpointMax(v.moves) == 1 by {
      EndpointMaxOfValue(c);
    }
    assert Looped(v.moves, v.finals) == {Move(0, c, 0)} by {
      assert v.moves == {Move(0, c, 1)} && v.finals == {1};
    }
    assert TranslateSpec(Clini(Value(c))) == CliniSpec(v);
    assert {Move(0, c, 0)} + {Move(0, c, 1)} == {Move(0, c, 0), Move(0, c, 1)};
  }

  lemma ShiftedClosure(c: char)
    ensures ShiftStates({0, 1}, 1) == {1, 2}
    ensures ShiftMoves({Move(0, c, 0), Move(0, c, 1)}, 1) == {Move(1, c, 1), Move(1, c, 2)}
    ensures Connections({Move(0, c, 0), Move(0, c, 1)}, {1}, 1) == {Move(1, c, 1), Move(1, c, 2)}
  {
  }

  /** The translation of `ab*`: the closure is glued onto the final 1 of `a`, which stays final. */
  lemma ConcatenationWithClosureBuilt()
    ensures TranslateSpec(Concatenation(Value('a'), Clini(Value('b'))))
         == Nfa({0}, {1, 2}, {Move(0, 'a', 1), Move(1, 'b', 1), Move(1, 'b', 2)})
  {
    var l := ValueSpec('a');
    var r := Nfa({0}, {0, 1}, {Move(0, 'b', 0), Move(0, 'b', 1)});
    ClosureOfLetterBuilt('b');
    EndpointMaxOfValue('a');
    ConcatenationSpecWith(l, r, 1);
    assert Closed(r) by {
      assert Move(0, 'b', 0) in r.moves;
    }
    ShiftedClosure('b');
    var d := ConcatenationSpec(l, r);
    assert d.finals == {1, 2};
    assert d.moves == {Move(0, 'a', 1), Move(1, 'b', 1), Move(1, 'b', 2)};
  }

  /** One `put` through a table of three transitions: the ends of those that leave `s` on `c`. */
  lemma StepOfThree(m1: Move, m2: Move, m3: Move, s: set<nat>, c: char, r: set<nat>)
    requires r == (if m1.origin in s && m1.symbol == c then {m1.end} else {})
                + (if m2.origin in s && m2.symbol == c then {m2.end} else {})
                + (if m3.origin in s && m3.symbol == c then {m3.end} else {})
    ensures Step({m1, m2, m3}, s, c) == r
  {
    StepThree(m1, m2, m3, s, c);
  }

  /** The automaton built for `ab*` accepts `a`, `ab` and `abb`: `0 -a-> 1`, then the loop `1 -b-> 1`. */
  lemma ConcatenationWithClosureAccepts()
    ensures var a := Nfa({0}, {1, 2}, {Move(0, 'a', 1), Move(1, 'b', 1), Move(1, 'b', 2)});
      Accepts(a, "a") && Accepts(a, "ab") && Accepts(a, "abb")
  {
    assert "ab" == "a" + "b" && "abb" == "ab" + "b";
    var t := {Move(0, 'a', 1), Move(1, 'b', 1), Move(1, 'b', 2)};
    PathOne(t, 0, 'a', 1);
    PathOne(t, 1, 'b', 1);
    PathAppend(t, 0, "a", 1, "b", 1);
    PathAppend(t, 0, "ab", 1, "b", 1);
  }

  /** The automaton built for `ab*` rejects `aab`: after `a` only state 1 is left, and it has no `a` move. */
  lemma ConcatenationWithClosureRejects()
    ensures !Accepts(Nfa({0}, {1, 2}, {Move(0, 'a', 1), Move(1, 'b', 1), Move(1, 'b', 2)}), "aab")
  {
    assert "aab" == ['a'] + "ab" && "ab" == ['a'] + "b";
    var m1, m2, m3 := Move(0, 'a', 1), Move(1, 'b', 1), Move(1, 'b', 2);
    var a := Nfa({0}, {1, 2}, {m1, m2, m3});
    StepOfThree(m1, m2, m3, {0}, 'a', {1});
    StepOfThree(m1, m2, m3, {1}, 'a', {});
    RunCons(a.moves, {0}, 'a', "ab");
    RunCons(a.moves, {1}, 'a', "b");
    RunEmpty(a.moves, "b");
    RunAccepts(a, "aab");
  }

  /** `ab*` accepts `a`, `ab` and `abb` and rejects `aab`, as the repository's tests expect. */
  lemma ConcatenationWithClosureExpected()
    ensures var a := TranslateSpec(Concatenation(Value('a'), Clini(Value('b'))));
      Accepts(a, "a") && Accepts(a, "ab") && Accepts(a, "abb") && !Accepts(a, "aab")
  {
    ConcatenationWithClosureBuilt();
    ConcatenationWithClosureAccepts();
    ConcatenationWithClosureRejects();
  }
}
