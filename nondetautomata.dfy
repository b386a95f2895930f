/**
 * automata/nondetautomata.py: the earlier version of the multi-start automaton. Its
 * transition table, stepping (`put`, `reset`, `is_final_state`), `shifting`, `len`,
 * `copy`, `by_value` and `by_decision` are those of automata/ndfa.py, so the class
 * `Ndfa.NDFA` and its combinators stand for them. What differs is `by_concatenation`,
 * which bridges from every transition of the first automaton whatever its end, and
 * `by_closure`, which loops back to the starts and makes every start final. Both still
 * accept every word of the regular operation they stand for, and both accept more.
 */
module NonDetAutomata {
  import opened Nfas
  import opened Transitions
  import opened Ndfa
  import NdfaLanguage
  import Tree

  /** The connections of `by_concatenation`: each transition of the first automaton, redirected to each start of the second. */
  function AllBridges(t: set<Move>, starts: set<nat>): set<Move> {
    set m, s | m in t && s in starts :: Move(m.origin, m.symbol, s)
  }

  /** `by_concatenation(m1, m2)`: starts, finals and transitions of the result. */
  ghost function ConcatenationSpec(a: Nfa, b: Nfa): Nfa {
    Glued(a, Shift(b, Size(a)))
  }

  /** `by_concatenation(m1, m2)` with `m2` already shifted by `len(m1)`. */
  function Glued(a: Nfa, b: Nfa): Nfa {
    Nfa(if a.starts * a.finals != {} then a.starts + b.starts else a.starts,
        b.finals,
        a.moves + b.moves + AllBridges(a.moves, b.starts))
  }

  /** `by_closure(m)`: each transition into a final also leads to every start, and every start is final. */
  function ClosureSpec(a: Nfa): Nfa {
    Nfa(a.starts, a.finals + a.starts, a.moves + Bridges(a.moves, a.finals, a.starts))
  }

  lemma AllBridgesStep(done: set<Move>, m: Move, starts: set<nat>)
    ensures AllBridges(done + {m}, starts)
         == AllBridges(done, starts) + set s | s in starts :: Move(m.origin, m.symbol, s)
  {
  }

  /** One pass of the connections loop: `m`, redirected to each start. */
  method AddAllBridgesOf(r: NonDetTransitions, ghost done: set<Move>, m: Move, starts: set<nat>)
    requires r.moves == AllBridges(done, starts)
    modifies r
    ensures r.moves == AllBridges(done + {m}, starts)
  {
    AllBridgesStep(done, m, starts);
    AddToEach(r, m.origin, m.symbol, starts);
  }

  /** The connections loop of `by_concatenation`. */
  method AddAllBridges(t: set<Move>, starts: set<nat>) returns (r: NonDetTransitions)
    ensures fresh(r) && r.moves == AllBridges(t, starts)
  {
    r := new NonDetTransitions({});
    var todo := t;
    ghost var done: set<Move> := {};
    while todo != {}
      invariant todo <= t && done == t - todo
      invariant r.moves == AllBridges(done, starts)
      invariant fresh(r)
      decreases |todo|
    {
      var m :| m in todo;
      AddAllBridgesOf(r, done, m, starts);
      done := done + {m};
      todo := todo - {m};
    }
  }

  /** `by_concatenation(m1, m2)`. */
  method ByConcatenation(m1: NDFA, m2: NDFA) returns (r: NDFA)
    requires m1.Valid()
    ensures fresh(r) && fresh(r.T)
    ensures r.Value() == ConcatenationSpec(m1.Value(), m2.Value()) && r.Valid() && r.stepStates == r.I
  {
    var shift := m1.Len();
    var m2' := Shifting(m2, shift);
    var newI := m1.I;
    var newF := m2'.F;
    if |m1.I * m1.F| > 0 {
      newI := newI + m2'.I;
    }
    var ts := AddAllBridges(m1.T.moves, m2'.I);
    var u := m1.T.Union(m2'.T);
    var t := u.Union(ts);
    r := new NDFA(newI, newF, t);
  }

  /** One pass of the loop of `by_closure`: if `m` ends in a final, it is added again towards each start. */
  method AddLoopsOf(dst: NonDetTransitions, ghost base: set<Move>, ghost done: set<Move>, m: Move, finals: set<nat>, starts: set<nat>)
    requires dst.moves == base + Bridges(done, finals, starts)
    modifies dst
    ensures dst.moves == base + Bridges(done + {m}, finals, starts)
  {
    BridgesStep(done, m, finals, starts);
    if m.end in finals {
      AddToEach(dst, m.origin, m.symbol, starts);
    }
  }

  /** The loops of `by_closure` start and end at existing states, so the biggest state stays. */
  lemma ClosureStates(a: Nfa)
    ensures States(ClosureSpec(a)) == States(a)
    ensures Biggest(ClosureSpec(a)) == Biggest(a)
  {
    var c := ClosureSpec(a);
    forall m | m in c.moves
      ensures m.origin in States(a) && m.end in States(a)
    {
      if m !in a.moves {
        var m0, s :| m0 in a.moves && m0.end in a.finals && s in a.starts && m == Move(m0.origin, m0.symbol, s);
        assert m0.origin in Origins(a.moves);
      } else {
        assert m.origin in Origins(a.moves) && m.end in Ends(a.moves);
      }
    }
    assert States(c) == States(a);
  }

  /** `by_closure(m)`: a copy of `m`, its loops added to the copy's table, its starts made final. */
  method ByClosure(m: NDFA) returns (r: NDFA)
    requires m.Valid()
    ensures fresh(r) && fresh(r.T)
    ensures r.Value() == ClosureSpec(m.Value()) && r.Valid() && r.stepStates == m.I
  {
    ghost var a := m.Value();
    r := m.Copy();
    var todo := m.T.moves;
    ghost var done: set<Move> := {};
    while todo != {}
      invariant todo <= a.moves && done == a.moves - todo
      invariant r.T.moves == a.moves + Bridges(done, a.finals, a.starts)
      invariant r.I == a.starts && r.F == a.finals && r.stepStates == a.starts && r.biggest == Biggest(a)
      invariant fresh(r) && fresh(r.T)
      decreases |todo|
    {
      var x :| x in todo;
      AddLoopsOf(r.T, a.moves, done, x, m.F, m.I);
      done := done + {x};
      todo := todo - {x};
    }
    r.F := r.F + r.I;
    ClosureStates(a);
  }

  /** An automaton is widened by more starts, finals or transitions. */
  lemma AcceptsMono(a: Nfa, b: Nfa, w: string)
    requires a.starts <= b.starts && a.finals <= b.finals && a.moves <= b.moves
    requires Accepts(a, w)
    ensures Accepts(b, w)
  {
    var p, q :| p in a.starts && q in a.finals && Path(a.moves, p, w, q);
    PathMono(a.moves, b.moves, p, w, q);
  }

  /** This `by_concatenation` still accepts each word of `m1` followed by a word of `m2`. */
  lemma ConcatenationComplete(a: Nfa, b: Nfa, w: string, k: nat)
    requires k <= |w| && Accepts(a, w[..k]) && Accepts(b, w[k..])
    ensures Accepts(ConcatenationSpec(a, b), w)
  {
    NdfaLanguage.ConcatComplete(a, b, w, k);
    var b' := Shift(b, Size(a));
    assert Bridges(a.moves, a.finals, b'.starts) <= AllBridges(a.moves, b'.starts);
    AcceptsMono(ByConcatenationSpec(a, b), ConcatenationSpec(a, b), w);
  }

  /** The transitions of `by_closure` are those `by_concatenation` of automata/ndfa.py adds when gluing `m` before its own starts. */
  lemma ClosureAsBridge(a: Nfa)
    ensures ClosureSpec(a).moves == ConcatShifted(a, Nfa(a.starts, {}, {})).moves
  {
  }

  /** This `by_closure` accepts every sequence of words of `m`, provided `m` has a start. */
  lemma {:induction false} ClosureComplete(a: Nfa, w: string)
    requires a.starts != {} && NdfaLanguage.StarOf(a, w)
    ensures Accepts(ClosureSpec(a), w)
    decreases |w|
  {
    var c := ClosureSpec(a);
    if w == [] {
      var s :| s in a.starts;
      assert s in c.starts && s in c.finals && Path(c.moves, s, w, s);
    } else {
      var k :| 1 <= k <= |w| && Accepts(a, w[..k]) && NdfaLanguage.StarOf(a, w[k..]);
      var u, v := w[..k], w[k..];
      assert u + v == w;
      var p, f :| p in a.starts && f in a.finals && Path(a.moves, p, u, f);
      if v == [] {
        PathMono(a.moves, c.moves, p, u, f);
        assert u == w;
      } else {
        ClosureComplete(a, v);
        var s, q :| s in c.starts && q in c.finals && Path(c.moves, s, v, q);
        NdfaLanguage.BridgePath(a, Nfa(a.starts, {}, {}), p, u, f, s);
        ClosureAsBridge(a);
        PathAppend(c.moves, p, u, s, v, q);
      }
    }
  }

  /** A first move of `m1` from a start, followed by a one-move word of the shifted `m2`, is accepted over a connection. */
  lemma StrayPath(a: Nfa, b: Nfa, p: nat, x: char, q: nat, s: nat, z: char, e: nat)
    requires p in a.starts && Move(p, x, q) in a.moves
    requires s in b.starts && e in b.finals && Move(s, z, e) in b.moves
    ensures Accepts(Glued(a, b), [x, z])
  {
    var c := Glued(a, b);
    assert Move(p, x, s) in AllBridges(a.moves, b.starts);
    PathOne(c.moves, p, x, s);
    PathOne(c.moves, s, z, e);
    PathAppend(c.moves, p, [x], s, [z], e);
    assert [x] + [z] == [x, z];
  }

  /** `xy` glued before `z` by this `by_concatenation` accepts `xz`. */
  lemma StrayConcatenationPath(x: char, y: char, z: char)
    ensures var xy := ConcatenationSpec(ByValueSpec(x), ByValueSpec(y));
            Accepts(ConcatenationSpec(xy, ByValueSpec(z)), [x, z])
  {
    var xy := ConcatenationSpec(ByValueSpec(x), ByValueSpec(y));
    FirstOfGlued(ByValueSpec(x), ByValueSpec(y), 0, x, 1);
    StrayShifted(xy, ByValueSpec(z), 0, x, 1, 0, z, 1);
  }

  /** `StrayPath`, before `m2` is shifted. */
  lemma StrayShifted(a: Nfa, b: Nfa, p: nat, x: char, q: nat, s: nat, z: char, e: nat)
    requires p in a.starts && Move(p, x, q) in a.moves
    requires s in b.starts && e in b.finals && Move(s, z, e) in b.moves
    ensures Accepts(ConcatenationSpec(a, b), [x, z])
  {
    var n := Size(a);
    var b' := Shift(b, n);
    assert s + n in b'.starts && e + n in b'.finals && Move(s + n, z, e + n) in b'.moves;
    StrayPath(a, b', p, x, q, s + n, z, e + n);
  }

  /** The first automaton's starts and transitions stay in the concatenation. */
  lemma FirstOfGlued(a: Nfa, b: Nfa, p: nat, x: char, q: nat)
    requires p in a.starts && Move(p, x, q) in a.moves
    ensures p in ConcatenationSpec(a, b).starts && Move(p, x, q) in ConcatenationSpec(a, b).moves
  {
  }

  /** `xz` is not the word `xy` when `y != z`. */
  lemma PairMisses(x: char, y: char, z: char)
    requires y != z
    ensures !Tree.Matches(Tree.Concatenation(Tree.Value(x), Tree.Value(y)), [x, z])
  {
    var w := [x, z];
    forall k | 0 <= k <= 2
      ensures !(Tree.Matches(Tree.Value(x), w[..k]) && Tree.Matches(Tree.Value(y), w[k..]))
    {
      if k == 1 {
        assert w[..1] == [x] && w[1..] == [z];
      }
    }
  }

  /** `xz` is not the word `(xy)z` when `y != z`. */
  lemma TripleMisses(x: char, y: char, z: char)
    requires y != z
    ensures !Tree.Matches(Tree.Concatenation(Tree.Concatenation(Tree.Value(x), Tree.Value(y)), Tree.Value(z)), [x, z])
  {
    var w := [x, z];
    var xy := Tree.Concatenation(Tree.Value(x), Tree.Value(y));
    forall k | 0 <= k <= 2
      ensures !(Tree.Matches(xy, w[..k]) && Tree.Matches(Tree.Value(z), w[k..]))
    {
      if k == 2 {
        PairMisses(x, y, z);
        assert w[..2] == w;
      }
    }
  }

  /** `(ab)c` built with this `by_concatenation` accepts `ac`, which the expression does not match. */
  lemma ConcatenationAcceptsStray()
    ensures var ab := ConcatenationSpec(ByValueSpec('a'), ByValueSpec('b'));
            Accepts(ConcatenationSpec(ab, ByValueSpec('c')), "ac")
    ensures !Tree.Matches(Tree.Concatenation(Tree.Concatenation(Tree.Value('a'), Tree.Value('b')), Tree.Value('c')), "ac")
  {
    StrayConcatenationPath('a', 'b', 'c');
    TripleMisses('a', 'b', 'c');
    assert ['a', 'c'] == "ac";
  }

  /** `(a*b)*` built with this `by_concatenation` and `by_closure` accepts `a`, which the expression does not match. */
  lemma ClosureAcceptsStray()
    ensures var inner := ConcatenationSpec(ClosureSpec(ByValueSpec('a')), ByValueSpec('b'));
            Accepts(ClosureSpec(inner), "a")
    ensures !Tree.Matches(Tree.Clini(Tree.Concatenation(Tree.Clini(Tree.Value('a')), Tree.Value('b'))), "a")
  {
    var star := ClosureSpec(ByValueSpec('a'));
    var inner := ConcatenationSpec(star, ByValueSpec('b'));
    var c := ClosureSpec(inner);
    assert Move(0, 'a', 1) in ByValueSpec('a').moves && 1 in ByValueSpec('a').finals;
    assert Move(0, 'a', 0) in star.moves;
    assert Move(0, 'a', 0) in c.moves;
    assert 0 in c.starts && 0 in c.finals;
    PathOne(c.moves, 0, 'a', 0);
    assert ['a'] == "a";
    Tree.ClosureOfConcatenationMisses();
  }
}
