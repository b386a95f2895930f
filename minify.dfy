/**
 * `DFA.minify` (automata/dfa.py): the loops that seed and fill the matrix, the equality
 * sets read off it, the rules that send each state to the main state of its set, and the
 * automaton rewritten through them. Each loop is proved against the values of module
 * MinifyMatrix; with the successors' cell read where it lies, the result accepts exactly
 * the words the automaton accepted.
 */
module DfaMinify {
  import opened Outcomes
  import opened Det = DetAutomata
  import opened MinifyMatrix
  import Nfas

  /** The seeding loops: one row per state `1..biggest`, a 1 where exactly one of the two states is final. */
  method SeedMatrix(finals: set<nat>, biggest: nat) returns (m: Matrix)
    ensures m == Seed(finals, biggest)
    ensures Triangle(m) && |m| == biggest
    ensures forall i, j | 0 <= j <= i < biggest :: m[i][j] <==> (i + 1 in finals) != (j in finals)
  {
    m := [];
    for s1 := 1 to biggest + 1
      invariant |m| == s1 - 1 && forall i | 0 <= i < s1 - 1 :: m[i] == Seed(finals, biggest)[i]
    {
      var row: seq<bool> := [];
      for s2 := 0 to s1
        invariant row == seq(s2, j => (s1 in finals) != (j in finals))
      {
        row := row + [(s1 in finals) != (s2 in finals)];
      }
      m := m + [row];
    }
  }

  /** The symbols the transitions of `g` use. */
  function Symbols(g: Graph): set<char> {
    set k | k in g :: k.1
  }

  /** The `vocabulary` loop: every symbol of a transition, and nothing else. */
  method Vocabulary(g: Graph) returns (v: set<char>)
    ensures forall c :: c in v <==> exists k | k in g :: k.1 == c
    ensures v == Symbols(g)
  {
    v := {};
    var todo := g.Keys;
    while todo != {}
      invariant todo <= g.Keys
      invariant forall c :: c in v <==> exists k | k in g && k !in todo :: k.1 == c
      decreases |todo|
    {
      var k :| k in todo;
      v := v + {k.1};
      todo := todo - {k};
    }
  }

  /** `vocab` lists the set `s`, each element once. */
  ghost predicate Enumerates(vocab: seq<char>, s: set<char>) {
    && (forall i, j | 0 <= i < j < |vocab| :: vocab[i] != vocab[j])
    && (forall c :: c in vocab <==> c in s)
  }

  /**
   * The order in which `for symb in vocabulary` visits the set: not fixed by the program,
   * but the same on every pass, since the set no longer changes.
   */
  method IterationOrder(s: set<char>) returns (vocab: seq<char>)
    ensures Enumerates(vocab, s)
  {
    vocab := [];
    var todo := s;
    while todo != {}
      invariant todo <= s
      invariant forall c :: c in vocab <==> c in s && c !in todo
      invariant forall i, j | 0 <= i < j < |vocab| :: vocab[i] != vocab[j]
      decreases |todo|
    {
      var c :| c in todo;
      vocab := vocab + [c];
      todo := todo - {c};
    }
  }

  /**
   * The `for symb in vocabulary` loop for the 0 cell `(s1, s2)`: each symbol counts the
   * missing transitions of the states `s1 + 1` and `s2`; one missing marks the cell, and
   * so does a pair of distinct successors whose cell holds 1. The first mark ends the loop.
   */
  method CheckCell(t: DetTransitions, m: Matrix, s1: nat, s2: nat, vocab: seq<char>, corrected: bool)
    returns (r: Result<bool, RuntimeError>)
    requires Triangle(m)
    ensures r == CellVerdict(t.graph, m, s1, s2, vocab, corrected)
  {
    for i := 0 to |vocab|
      invariant CellVerdict(t.graph, m, s1, s2, vocab, corrected) == CellVerdict(t.graph, m, s1, s2, vocab[i..], corrected)
    {
      var symb := vocab[i];
      assert vocab[i..][0] == symb && vocab[i..][1..] == vocab[i + 1..];
      var exceptions := 0;
      var x := t.GetEnd(s1 + 1, symb);
      if x.Err? {
        exceptions := exceptions + 1;
      }
      var y := t.GetEnd(s2, symb);
      if y.Ok? {
        if exceptions == 0 && x.value != y.value {
          var hi, lo := x.value, y.value;
          if lo > hi {
            hi, lo := lo, hi;
          }
          var row := if corrected then hi - 1 else hi + 1;
          if row >= |m| {
            return Err(IndexError);
          }
          if m[row][lo] {
            return Ok(true);
          }
        }
      } else {
        exceptions := exceptions + 1;
      }
      if exceptions == 1 {
        return Ok(true);
      }
    }
    return Ok(false);
  }

  /**
   * The `while changes` loop: passes over every cell of the matrix, row by row, writing 1
   * into each 0 cell its symbols mark, until a pass changes nothing. An IndexError of a
   * cell's check ends it.
   */
  method Refine(t: DetTransitions, m0: Matrix, vocab: seq<char>, corrected: bool) returns (r: Result<Matrix, RuntimeError>)
    requires Triangle(m0)
    ensures r == Fix(t.graph, m0, vocab, corrected)
  {
    var m := m0;
    var changes := true;
    while changes
      invariant Triangle(m)
      invariant Fix(t.graph, m0, vocab, corrected) == if changes then Fix(t.graph, m, vocab, corrected) else Ok(m)
      decreases if changes then Zeros(m) + 1 else 0
    {
      changes := false;
      var cells := TriangleCells(m);
      ghost var start := m;
      for k := 0 to |cells|
        invariant Triangle(m) && Grows(start, m)
        invariant PassFrom(t.graph, start, cells, vocab, corrected, false) == PassFrom(t.graph, m, cells[k..], vocab, corrected, changes)
      {
        var s1, s2 := cells[k].0, cells[k].1;
        assert cells[k..][0] == cells[k] && cells[k..][1..] == cells[k + 1..];
        if !m[s1][s2] {
          var v := CheckCell(t, m, s1, s2, vocab, corrected);
          if v.Err? {
            return Err(v.error);
          }
          if v.value {
            GrowsTrans(start, m, Mark(m, s1, s2));
            m := m[s1 := m[s1][s2 := true]];
            changes := true;
          }
        }
      }
    }
    return Ok(m);
  }

  /**
   * `equality_set(viewed, m, state)`: `state` and the equality sets of every `s + 1` whose
   * cell against `state` holds 0, each such `s + 1` added to `viewed` on the way; `state`
   * itself is not added.
   */
  method EqualitySet(viewed: set<nat>, m: Matrix, state: nat) returns (equal: set<nat>, viewed': set<nat>)
    requires Triangle(m) && state <= |m|
    ensures equal == EqSet(m, state)
    ensures viewed' == viewed + (equal - {state})
    decreases |m| - state
  {
    equal := {state};
    viewed' := viewed;
    for s := state to |m|
      invariant equal + EqSetFrom(m, state, s) == EqSet(m, state)
      invariant state in equal && viewed' == viewed + (equal - {state})
    {
      if !m[s][state] {
        var sub;
        viewed' := viewed' + {s + 1};
        sub, viewed' := EqualitySet(viewed', m, s + 1);
        EqSetBounds(m, s + 1);
        equal := equal + sub;
      }
    }
  }

  /** Each set is the class of each of its states: the states `0..|m|` the matrix does not tell from it. */
  ghost predicate Classes(m: Matrix, eqSets: seq<set<nat>>) {
    forall i, s, t: nat | 0 <= i < |eqSets| && s in eqSets[i] && t <= |m| :: t in eqSets[i] <==> Same(m, s, t)
  }

  /** No state lies in two of the sets. */
  ghost predicate Disjoint(eqSets: seq<set<nat>>) {
    forall i, j | 0 <= i < j < |eqSets| :: eqSets[i] !! eqSets[j]
  }

  /** State `s` lies in one of the sets. */
  ghost predicate InSome(eqSets: seq<set<nat>>, s: nat) {
    exists i :: 0 <= i < |eqSets| && s in eqSets[i]
  }

  /** Every state `0..b` lies in one of the sets. */
  ghost predicate Covering(eqSets: seq<set<nat>>, b: nat) {
    forall s: nat | s <= b :: InSome(eqSets, s)
  }

  /** The set holds a state below `state`. */
  ghost predicate StartsBelow(e: set<nat>, state: nat) {
    exists r: nat :: r < state && r in e
  }

  /** The loop invariant of `EqualitySets` for the states before `state`. */
  ghost predicate SetsSoFar(m: Matrix, state: nat, viewed: set<nat>, eqSets: seq<set<nat>>) {
    && Triangle(m)
    && (forall i | 0 <= i < |eqSets| :: StartsBelow(eqSets[i], state))
    && (forall i | 0 <= i < |eqSets| :: forall t | t in eqSets[i] :: t <= |m| && (t < state || t in viewed))
    && (forall t | t in viewed :: t <= |m| && InSome(eqSets, t))
    && (forall t: nat | t < state && t <= |m| :: InSome(eqSets, t))
    && (Equivalence(m) ==> Classes(m, eqSets) && Disjoint(eqSets))
    && (Equivalence(m) ==> forall r: nat, t: nat | r < state && r < t <= |m| && Same(m, r, t) :: t in viewed)
  }

  /**
   * The loop over the states `0..biggest`: the equality set of each state not yet viewed.
   * Every state lies in one of the sets; on an equivalence, the sets are its classes, each
   * listed once.
   */
  method EqualitySets(m: Matrix, biggest: nat) returns (eqSets: seq<set<nat>>)
    requires Triangle(m) && |m| == biggest
    ensures forall i | 0 <= i < |eqSets| :: eqSets[i] != {} && forall t | t in eqSets[i] :: t <= biggest
    ensures Covering(eqSets, biggest)
    ensures Equivalence(m) ==> Classes(m, eqSets) && Disjoint(eqSets)
  {
    var viewed: set<nat> := {};
    eqSets := [];
    for state := 0 to biggest + 1
      invariant SetsSoFar(m, state, viewed, eqSets)
    {
      if state !in viewed {
        var e, viewed' := EqualitySet(viewed, m, state);
        EqSetBounds(m, state);
        NewClass(m, state, viewed, eqSets, e, viewed');
        eqSets := eqSets + [e];
        viewed := viewed';
      } else {
        ViewedState(m, state, viewed, eqSets);
      }
    }
  }

  /** One instance of `Classes`. */
  lemma ClassMember(m: Matrix, eqSets: seq<set<nat>>, i: nat, s: nat, t: nat)
    requires Classes(m, eqSets) && i < |eqSets| && s in eqSets[i] && t <= |m|
    ensures t in eqSets[i] <==> Same(m, s, t)
  {
  }

  /** A state not yet viewed starts a new set: its equality set. */
  lemma NewClass(m: Matrix, state: nat, viewed: set<nat>, eqSets: seq<set<nat>>, e: set<nat>, viewed': set<nat>)
    requires SetsSoFar(m, state, viewed, eqSets) && state <= |m| && state !in viewed
    requires e == EqSet(m, state) && viewed' == viewed + (e - {state})
    requires state in e && forall t | t in e :: state <= t <= |m|
    ensures SetsSoFar(m, state + 1, viewed', eqSets + [e])
  {
    var sets := eqSets + [e];
    assert forall i | 0 <= i < |eqSets| :: sets[i] == eqSets[i];
    assert sets[|eqSets|] == e;
    forall i | 0 <= i < |sets|
      ensures StartsBelow(sets[i], state + 1)
    {
      if i < |eqSets| {
        assert StartsBelow(eqSets[i], state);
        var r: nat :| r < state && r in eqSets[i];
      } else {
        assert state in sets[i];
      }
    }
    forall t | t in viewed'
      ensures InSome(sets, t)
    {
      if t !in viewed {
        assert t in sets[|eqSets|];
      } else {
        assert t <= |m| && InSome(eqSets, t);
        var i :| 0 <= i < |eqSets| && t in eqSets[i];
        assert t in sets[i];
      }
    }
    forall t: nat | t < state + 1 && t <= |m|
      ensures InSome(sets, t)
    {
      if t == state {
        assert t in sets[|eqSets|];
      } else {
        assert InSome(eqSets, t);
        var i :| 0 <= i < |eqSets| && t in eqSets[i];
        assert t in sets[i];
      }
    }
    if Equivalence(m) {
      EqSetClass(m, state);
      NewClassIsClass(m, state, viewed, eqSets, e);
      forall r: nat, t: nat | r < state + 1 && r < t <= |m| && Same(m, r, t)
        ensures t in viewed'
      {
        if r == state {
          assert t in ClassFrom(m, state, state);
        }
      }
    }
  }

  /** A state not yet viewed is told apart from every state before it. */
  lemma NotBelow(m: Matrix, state: nat, viewed: set<nat>, eqSets: seq<set<nat>>, t: nat)
    requires SetsSoFar(m, state, viewed, eqSets) && state <= |m| && state !in viewed && Equivalence(m) && t < state
    ensures !Same(m, state, t)
  {
    assert !Same(m, t, state);
  }

  /** On an equivalence, the equality set of a state not yet viewed is its class and meets no earlier set. */
  lemma NewClassIsClass(m: Matrix, state: nat, viewed: set<nat>, eqSets: seq<set<nat>>, e: set<nat>)
    requires SetsSoFar(m, state, viewed, eqSets) && state <= |m| && state !in viewed && Equivalence(m)
    requires e == {state} + ClassFrom(m, state, state)
    ensures Classes(m, eqSets + [e]) && Disjoint(eqSets + [e])
  {
    var sets := eqSets + [e];
    forall s, t: nat | s in e && t <= |m|
      ensures t in e <==> Same(m, s, t)
    {
      assert Same(m, state, s) && Same(m, s, state);
      if t in e {
        assert Same(m, state, t);
      } else if Same(m, s, t) {
        assert Same(m, state, t);
        if t < state {
          NotBelow(m, state, viewed, eqSets, t);
        }
      }
    }
    forall i | 0 <= i < |eqSets|
      ensures eqSets[i] !! e
    {
      if s :| s in eqSets[i] && s in e {
        assert Same(m, s, state);
        ClassMember(m, eqSets, i, s, state);
      }
    }
    assert forall i | 0 <= i < |eqSets| :: sets[i] == eqSets[i];
    assert sets[|eqSets|] == e;
  }

  /** A viewed state adds no set: its class met a smaller state already. */
  lemma ViewedState(m: Matrix, state: nat, viewed: set<nat>, eqSets: seq<set<nat>>)
    requires SetsSoFar(m, state, viewed, eqSets) && state in viewed
    ensures SetsSoFar(m, state + 1, viewed, eqSets)
  {
    forall i | 0 <= i < |eqSets|
      ensures StartsBelow(eqSets[i], state + 1)
    {
      assert StartsBelow(eqSets[i], state);
      var r: nat :| r < state && r in eqSets[i];
    }
    if Equivalence(m) {
      forall r: nat, t: nat | r < state + 1 && r < t <= |m| && Same(m, r, t)
        ensures t in viewed
      {
        if r == state {
          assert InSome(eqSets, state);
          var i :| 0 <= i < |eqSets| && state in eqSets[i];
          assert StartsBelow(eqSets[i], state);
          var r0: nat :| r0 < state && r0 in eqSets[i];
          ClassMember(m, eqSets, i, r0, state);
        }
      }
    }
  }

  // Rules: what `trans_rules` maps each state to.

  /** `trans_rules[s] = main` for every state of `rest`; every other entry stays. */
  method AssignMain(rules: map<nat, nat>, rest: set<nat>, main: nat) returns (rules': map<nat, nat>)
    ensures forall s :: s in rules' <==> s in rules || s in rest
    ensures forall s | s in rest :: rules'[s] == main
    ensures forall s | s in rules && s !in rest :: rules'[s] == rules[s]
  {
    rules' := rules;
    var todo := rest;
    while todo != {}
      invariant todo <= rest
      invariant forall s :: s in rules' <==> s in rules || (s in rest && s !in todo)
      invariant forall s | s in rest && s !in todo :: rules'[s] == main
      invariant forall s | s in rules && s !in rest :: rules'[s] == rules[s]
      decreases |todo|
    {
      var s :| s in todo;
      rules' := rules'[s := main];
      todo := todo - {s};
    }
  }

  /** The rules after the sets before `n`, with `mains` the main state chosen for each. */
  ghost predicate RulesSoFar(eqSets: seq<set<nat>>, n: nat, mains: seq<nat>, rules: map<nat, nat>)
    requires n <= |eqSets|
  {
    && |mains| == n
    && (forall i, s | 0 <= i < n && s in eqSets[i] :: s in rules)
    && (forall s | s in rules :: exists i :: 0 <= i < n && s in eqSets[i])
    && (forall i | 0 <= i < n :: mains[i] in eqSets[i] && (0 in eqSets[i] ==> mains[i] == 0))
    && (Disjoint(eqSets) ==> forall i, s | 0 <= i < n && s in eqSets[i] :: rules[s] == mains[i])
  }

  /**
   * The `trans_rules` loop: for each set a main state (0 when the set holds it, any of its
   * states otherwise), and every state of the set mapped to it. With disjoint sets, each
   * state maps to the main state of its own set.
   */
  method TransRules(eqSets: seq<set<nat>>) returns (rules: map<nat, nat>)
    requires forall i | 0 <= i < |eqSets| :: eqSets[i] != {}
    ensures forall i, s | 0 <= i < |eqSets| && s in eqSets[i] :: s in rules
    ensures forall s | s in rules :: InSome(eqSets, s)
    ensures Disjoint(eqSets) ==> forall i, s | 0 <= i < |eqSets| && s in eqSets[i] ::
              rules[s] in eqSets[i] && (0 in eqSets[i] ==> rules[s] == 0)
    ensures Disjoint(eqSets) ==> forall i, s, t | 0 <= i < |eqSets| && s in eqSets[i] && t in eqSets[i] :: rules[s] == rules[t]
  {
    rules := map[];
    ghost var mains: seq<nat> := [];
    for n := 0 to |eqSets|
      invariant RulesSoFar(eqSets, n, mains, rules)
    {
      var eqSet := eqSets[n];
      var main := 0;
      if 0 !in eqSet {
        main :| main in eqSet;
        eqSet := eqSet - {main};
      }
      var rules' := rules[main := main];
      rules' := AssignMain(rules', eqSet, main);
      RulesStep(eqSets, n, mains, rules, main, rules');
      rules, mains := rules', mains + [main];
    }
  }

  lemma RulesStep(eqSets: seq<set<nat>>, n: nat, mains: seq<nat>, rules: map<nat, nat>, main: nat, rules': map<nat, nat>)
    requires n < |eqSets| && RulesSoFar(eqSets, n, mains, rules)
    requires main in eqSets[n] && (0 in eqSets[n] ==> main == 0)
    requires forall s :: s in rules' <==> s in rules || s in eqSets[n]
    requires forall s | s in eqSets[n] :: rules'[s] == main
    requires forall s | s in rules && s !in eqSets[n] :: rules'[s] == rules[s]
    ensures RulesSoFar(eqSets, n + 1, mains + [main], rules')
  {
    var mains' := mains + [main];
    assert forall i | 0 <= i < n :: mains'[i] == mains[i];
    forall s | s in rules'
      ensures exists i :: 0 <= i < n + 1 && s in eqSets[i]
    {
      if s !in eqSets[n] {
        var i :| 0 <= i < n && s in eqSets[i];
      }
    }
    if Disjoint(eqSets) {
      forall i, s | 0 <= i < n + 1 && s in eqSets[i]
        ensures rules'[s] == mains'[i]
      {
        if i < n {
          assert s !in eqSets[n];
        }
      }
    }
  }

  /** The rules of an equivalence's classes. */
  lemma RulesOfClasses(m: Matrix, eqSets: seq<set<nat>>, rules: map<nat, nat>)
    requires Equivalence(m) && Classes(m, eqSets) && Covering(eqSets, |m|)
    requires forall i | 0 <= i < |eqSets| :: forall t | t in eqSets[i] :: t <= |m|
    requires forall i, s | 0 <= i < |eqSets| && s in eqSets[i] :: s in rules
    requires forall s | s in rules :: InSome(eqSets, s)
    requires forall i, s | 0 <= i < |eqSets| && s in eqSets[i] :: rules[s] in eqSets[i] && (0 in eqSets[i] ==> rules[s] == 0)
    requires forall i, s, t | 0 <= i < |eqSets| && s in eqSets[i] && t in eqSets[i] :: rules[s] == rules[t]
    ensures Quotients(m, rules)
  {
    forall s: nat
      ensures s in rules <==> s <= |m|
    {
      if s <= |m| || s in rules {
        assert InSome(eqSets, s);
      }
    }
    forall s | s in rules
      ensures s <= |m| && rules[s] <= |m| && Same(m, s, rules[s])
    {
      assert InSome(eqSets, s);
      var i :| 0 <= i < |eqSets| && s in eqSets[i];
    }
    forall s, t | s in rules && t in rules && Same(m, s, t)
      ensures rules[s] == rules[t]
    {
      assert InSome(eqSets, s);
      var i :| 0 <= i < |eqSets| && s in eqSets[i];
      ClassMember(m, eqSets, i, s, t);
    }
    assert InSome(eqSets, 0);
    var i :| 0 <= i < |eqSets| && 0 in eqSets[i];
  }

  /**
   * Rules that send each state `0..|m|` to one the matrix does not tell from it, send
   * states it does not tell apart to the same state, and send 0 to itself.
   */
  ghost predicate Quotients(m: Matrix, rules: map<nat, nat>) {
    && (forall s: nat :: s in rules <==> s <= |m|)
    && (forall s | s in rules :: rules[s] <= |m| && Same(m, s, rules[s]))
    && (forall s, t | s in rules && t in rules && Same(m, s, t) :: rules[s] == rules[t])
    && rules[0] == 0
  }

  /** A state looked up in the rules; one the rules lack (the dead state -1) stays. */
  function Rename(rules: map<nat, nat>): nat -> nat {
    x => if x in rules then rules[x] else x
  }

  /** A runtime state through the rules; the dead state -1 stays. */
  function Lift(rules: map<nat, nat>, q: int): int {
    if q >= 0 && q as nat in rules then rules[q as nat] else q
  }

  /**
   * The loop over the old transitions: each written into a fresh table with its origin and
   * end looked up in the rules; KeyError when a transition has a state the rules lack.
   */
  method RewriteTransitions(t: DetTransitions, rules: map<nat, nat>) returns (r: Result<DetTransitions, RuntimeError>)
    ensures r.Err? <==> exists k | k in t.graph :: k.0 !in rules || t.graph[k] !in rules
    ensures r.Err? ==> r.error == KeyError
    ensures r.Ok? ==> fresh(r.value) && Wrote(t.graph, map[], r.value.graph, Rename(rules), Rename(rules), t.graph.Keys)
  {
    var g := t.graph;
    var newT := new DetTransitions(map[]);
    var todo := g.Keys;
    ghost var done: set<(nat, char)> := {};
    while todo != {}
      invariant todo <= g.Keys && done == g.Keys - todo
      invariant forall k | k in done :: k.0 in rules && g[k] in rules
      invariant Wrote(g, map[], newT.graph, Rename(rules), Rename(rules), done)
      decreases |todo|
    {
      var k :| k in todo;
      if k.0 !in rules || g[k] !in rules {
        return Err(KeyError);
      }
      MapOne(g, newT, map[], done, k, Rename(rules), Rename(rules));
      done := done + {k};
      todo := todo - {k};
    }
    return Ok(newT);
  }

  /** The loop over the old finals: each looked up in the rules; KeyError when the rules lack one. */
  method RewriteFinals(finals: set<nat>, rules: map<nat, nat>) returns (r: Result<set<nat>, RuntimeError>)
    ensures r.Err? <==> exists f | f in finals :: f !in rules
    ensures r.Err? ==> r.error == KeyError
    ensures r.Ok? ==> forall x :: x in r.value <==> exists f | f in finals && f in rules :: rules[f] == x
  {
    var newF: set<nat> := {};
    var todo := finals;
    while todo != {}
      invariant todo <= finals
      invariant forall f | f in finals && f !in todo :: f in rules
      invariant forall x :: x in newF <==> exists f | f in finals && f !in todo && f in rules :: rules[f] == x
      decreases |todo|
    {
      var f :| f in todo;
      if f !in rules {
        return Err(KeyError);
      }
      newF := newF + {rules[f]};
      todo := todo - {f};
    }
    return Ok(newF);
  }

  /** A valid automaton's transitions stay among its states `0..biggest`. */
  lemma ValidBounded(g: Graph, biggest: nat)
    requires biggest == GraphBiggest(g)
    ensures Bounded(g, biggest)
  {
    forall k | k in g
      ensures k.0 <= biggest && g[k] <= biggest
    {
      assert k.0 in GraphStates(g) && g[k] in GraphStates(g);
    }
  }

  /** On an exact matrix, two states it does not tell apart move alike on every symbol. */
  lemma AlikeStep(g: Graph, finals: set<nat>, m: Matrix, s: nat, o: nat, c: char)
    requires Exact(g, finals, m) && Bounded(g, |m|) && s <= |m| && o <= |m| && Same(m, s, o)
    ensures (Next(g, s, c) == -1) == (Next(g, o, c) == -1)
    ensures Next(g, s, c) != -1 ==> Same(m, Next(g, s, c) as nat, Next(g, o, c) as nat)
  {
    ObserveCons(g, finals, s, c, []);
    ObserveCons(g, finals, o, c, []);
    assert [c] + [] == [c];
    assert Observe(g, finals, s, [c]) == Observe(g, finals, o, [c]);
    if Next(g, s, c) != -1 {
      forall w
        ensures Observe(g, finals, Next(g, s, c), w) == Observe(g, finals, Next(g, o, c), w)
      {
        ObserveCons(g, finals, s, c, w);
        ObserveCons(g, finals, o, c, w);
        assert Observe(g, finals, s, [c] + w) == Observe(g, finals, o, [c] + w);
      }
    }
  }

  /** Two states the rules send to the same state are not told apart. */
  lemma SameRule(g: Graph, finals: set<nat>, m: Matrix, rules: map<nat, nat>, s: nat, o: nat)
    requires Exact(g, finals, m) && Quotients(m, rules) && s <= |m| && o <= |m| && rules[s] == rules[o]
    ensures Same(m, s, o)
  {
    ExactEquivalence(g, finals, m);
    assert Same(m, s, rules[s]) && Same(m, o, rules[o]);
    assert Same(m, rules[o], o);
  }

  /** A rewritten transition that lands on the rule of `s` came from a state the matrix does not tell from `s`. */
  lemma RenamedOrigin(g: Graph, finals: set<nat>, m: Matrix, rules: map<nat, nat>, s: nat, c: char, k0: (nat, char))
    requires Exact(g, finals, m) && Bounded(g, |m|) && Quotients(m, rules) && s <= |m|
    requires k0 in g && k0.1 == c && Rename(rules)(k0.0) == rules[s]
    ensures (s, c) in g && Same(m, g[k0], g[(s, c)])
  {
    assert k0.0 <= |m|;
    SameRule(g, finals, m, rules, k0.0, s);
    assert Next(g, k0.0, c) == g[k0];
    AlikeStep(g, finals, m, k0.0, s, c);
  }

  /** In the rewritten table, the rule of a state moves to the rule of that state's successor. */
  lemma QuotientNext(g: Graph, finals: set<nat>, m: Matrix, rules: map<nat, nat>, g': Graph, s: nat, c: char)
    requires Exact(g, finals, m) && Bounded(g, |m|) && Quotients(m, rules) && s <= |m|
    requires Wrote(g, map[], g', Rename(rules), Rename(rules), g.Keys)
    ensures Next(g', rules[s], c) == Lift(rules, Next(g, s, c))
  {
    var f := Rename(rules);
    var key := (rules[s], c);
    if (s, c) in g {
      assert key in RenamedKeys(g, g.Keys, f);
      assert RenamedFrom(g, f, f, key, g'[key]);
      var k0 :| k0 in g && (f(k0.0), k0.1) == key && f(g[k0]) == g'[key];
      RenamedOrigin(g, finals, m, rules, s, c, k0);
      assert g[k0] <= |m| && g[(s, c)] <= |m|;
      assert rules[g[k0]] == rules[g[(s, c)]];
    } else if key in g' {
      var k0 :| k0 in g && k0 in g.Keys && (f(k0.0), k0.1) == key;
      RenamedOrigin(g, finals, m, rules, s, c, k0);
      assert false;
    }
  }

  /** In the rewritten table, the rule of a state reads every word to the rule of where the old table reads it. */
  lemma {:induction false} QuotientRun(g: Graph, finals: set<nat>, m: Matrix, rules: map<nat, nat>, g': Graph, s: nat, w: string)
    requires Exact(g, finals, m) && Bounded(g, |m|) && Quotients(m, rules) && s <= |m|
    requires Wrote(g, map[], g', Rename(rules), Rename(rules), g.Keys)
    ensures Run(g', rules[s], w) == Lift(rules, Run(g, s, w))
    ensures Run(g, s, w) == -1 || 0 <= Run(g, s, w) <= |m|
    decreases |w|
  {
    if w != [] {
      QuotientNext(g, finals, m, rules, g', s, w[0]);
      var n := Next(g, s, w[0]);
      if n == -1 {
        RunDead(g, w[1..]);
        RunDead(g', w[1..]);
      } else {
        QuotientRun(g, finals, m, rules, g', n as nat, w[1..]);
      }
    }
  }

  /** The automaton rewritten through the rules of an exact matrix accepts what the old one accepted. */
  lemma QuotientLanguage(g: Graph, finals: set<nat>, m: Matrix, rules: map<nat, nat>, g': Graph, finals': set<nat>)
    requires Exact(g, finals, m) && Bounded(g, |m|) && Quotients(m, rules)
    requires Wrote(g, map[], g', Rename(rules), Rename(rules), g.Keys)
    requires forall f | f in finals :: f in rules
    requires forall x :: x in finals' <==> exists f | f in finals && f in rules :: rules[f] == x
    ensures forall w :: Det.Accepts(g', finals', w) <==> Det.Accepts(g, finals, w)
  {
    forall w
      ensures Det.Accepts(g', finals', w) <==> Det.Accepts(g, finals, w)
    {
      QuotientRun(g, finals, m, rules, g', 0, w);
      var q := Run(g, 0, w);
      if q >= 0 && rules[q as nat] in finals' {
        var f :| f in finals && f in rules && rules[f] == rules[q as nat];
        SameRule(g, finals, m, rules, f, q as nat);
        assert !Apart(g, finals, f, q as nat);
        assert Observe(g, finals, f, []) == Observe(g, finals, q as nat, []);
      }
    }
  }

  /** The rules hold exactly the states `0..b`. */
  lemma RulesCover(eqSets: seq<set<nat>>, rules: map<nat, nat>, b: nat)
    requires Covering(eqSets, b) && forall i | 0 <= i < |eqSets| :: forall t | t in eqSets[i] :: t <= b
    requires forall i, s | 0 <= i < |eqSets| && s in eqSets[i] :: s in rules
    requires forall s | s in rules :: InSome(eqSets, s)
    ensures forall s: nat :: s in rules <==> s <= b
  {
    forall s: nat
      ensures s in rules <==> s <= b
    {
      if s <= b || s in rules {
        assert InSome(eqSets, s);
      }
    }
  }

  /**
   * The second half of `minify`, from the filled matrix on: the equality sets, the rules,
   * and a new automaton over the transitions and finals rewritten through them. Only a
   * final state beyond the biggest state of the transitions fails (KeyError). On a matrix
   * that relates states exactly as words do, the new automaton accepts what the old one did.
   */
  method Merge(t: DetTransitions, finals: set<nat>, biggest: nat, m: Matrix) returns (r: Result<DetAutomata, RuntimeError>)
    requires Triangle(m) && |m| == biggest && Bounded(t.graph, biggest)
    ensures r.Err? <==> exists f | f in finals :: f > biggest
    ensures r.Err? ==> r.error == KeyError
    ensures r.Ok? ==> r.value.state == 0 && r.value.Valid()
    ensures r.Ok? && Exact(t.graph, finals, m) ==>
              forall w :: Det.Accepts(r.value.trans.graph, r.value.finals, w) <==> Det.Accepts(t.graph, finals, w)
  {
    var eqSets := EqualitySets(m, biggest);
    var rules := TransRules(eqSets);
    RulesCover(eqSets, rules, biggest);
    var newT := RewriteTransitions(t, rules);
    assert forall k | k in t.graph :: k.0 in rules && t.graph[k] in rules;
    assert newT.Ok?;
    var newF := RewriteFinals(finals, rules);
    if newF.Err? {
      return Err(newF.error);
    }
    var d := new DetAutomata(newT.value, newF.value);
    if Exact(t.graph, finals, m) {
      ExactEquivalence(t.graph, finals, m);
      RulesOfClasses(m, eqSets, rules);
      QuotientLanguage(t.graph, finals, m, rules, newT.value.graph, newF.value);
    }
    return Ok(d);
  }

  /** An order of the symbols of `g` lists every symbol a transition uses. */
  lemma OrderCovers(g: Graph, vocab: seq<char>)
    requires Enumerates(vocab, Symbols(g))
    ensures Covers(g, vocab)
  {
    forall k | k in g
      ensures k.1 in vocab
    {
      assert k.1 in Symbols(g);
    }
  }

  /**
   * `minify`: the matrix seeded and filled, then merged. It fails when a final state is
   * beyond the biggest state of the transitions (KeyError), and, as written, whenever
   * every order of the vocabulary reaches a successors' row past the matrix (IndexError).
   * With `corrected` the lookup never fails and the new automaton accepts exactly the
   * words the old one accepted.
   */
  method Minify(a: DetAutomata, corrected: bool) returns (r: Result<DetAutomata, RuntimeError>)
    requires a.Valid()
    ensures r.Ok? ==> r.value.state == 0 && r.value.Valid()
    ensures r.Err? ==> r.error == IndexError || r.error == KeyError
    ensures r == Err(KeyError) ==> exists f | f in a.finals :: f > a.biggest
    ensures corrected ==> (r.Err? <==> exists f | f in a.finals :: f > a.biggest)
    ensures corrected && r.Ok? ==>
              forall w :: Det.Accepts(r.value.trans.graph, r.value.finals, w) <==> Det.Accepts(a.trans.graph, a.finals, w)
    ensures (forall v | Enumerates(v, Symbols(a.trans.graph)) :: Fix(a.trans.graph, Seed(a.finals, a.biggest), v, corrected).Err?) ==> r.Err?
  {
    ValidBounded(a.trans.graph, a.biggest);
    var m := SeedMatrix(a.finals, a.biggest);
    var symbols := Vocabulary(a.trans.graph);
    var vocab := IterationOrder(symbols);
    OrderCovers(a.trans.graph, vocab);
    var fixed := Refine(a.trans, m, vocab, corrected);
    if corrected {
      FixExact(a.trans.graph, a.finals, a.biggest, vocab);
    }
    if fixed.Err? {
      return Err(fixed.error);
    }
    FixGrows(a.trans.graph, m, vocab, corrected);
    r := Merge(a.trans, a.finals, a.biggest, fixed.value);
  }

  /** The table of the automaton of "aaa": 0 -a-> 1 -a-> 2 -a-> 3. */
  function ThreeAs(): Graph {
    map[(0, 'a') := 1, (1, 'a') := 2, (2, 'a') := 3]
  }

  /** Every order of the vocabulary of that table starts with 'a'. */
  lemma ThreeAsVocabulary(v: seq<char>)
    requires Enumerates(v, Symbols(ThreeAs()))
    ensures |v| >= 1 && v[0] == 'a'
  {
    assert (0, 'a') in ThreeAs();
    assert Symbols(ThreeAs()) == {'a'};
    assert 'a' in v;
    assert v[0] in v;
  }

  /**
   * As written, `minify` of the automaton of "aaa" (finals {3}, biggest state 3) fails with
   * IndexError: at its first cell, states 1 and 0 move on 'a' to 2 and 1, and the row read
   * for them is 3, one past the matrix. Read where it lies (row 1) the cell holds 0.
   */
  lemma ThreeAsIndexError()
    ensures GraphBiggest(ThreeAs()) == 3
    ensures forall v | Enumerates(v, Symbols(ThreeAs())) :: Fix(ThreeAs(), Seed({3}, 3), v, false) == Err(IndexError)
    ensures SymbolVerdict(ThreeAs(), Seed({3}, 3), 0, 0, 'a', true) == Ok(false)
  {
    var g := ThreeAs();
    assert GraphStates(g) == {0, 1, 2, 3} by {
      assert (0, 'a') in g && (1, 'a') in g && (2, 'a') in g;
    }
    Nfas.MaxOfUnique({1} + GraphStates(g), 3);
    var m := Seed({3}, 3);
    assert m[0] == [false] && m[1] == [false, false];
    forall v | Enumerates(v, Symbols(g))
      ensures Fix(g, m, v, false) == Err(IndexError)
    {
      ThreeAsVocabulary(v);
      var cells := TriangleCells(m);
      assert cells[0] == (0, 0);
      assert SymbolVerdict(g, m, 0, 0, 'a', false) == Err(IndexError);
      assert CellVerdict(g, m, 0, 0, v, false) == Err(IndexError);
      assert PassFrom(g, m, cells, v, false, false) == Err(IndexError);
    }
  }
}
