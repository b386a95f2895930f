/**
 * automata/ndfa.py: the multi-start automaton the determinizer consumes, its stepping
 * (`put`, `reset`, `is_final_state`) and the four combinators the translation of a tree
 * is built from. Each combinator method is proved to build exactly the automaton its
 * specification function describes; NdfaLanguage proves what those automata accept.
 */
module Ndfa {
  import opened Outcomes
  import opened Nfas
  import opened Transitions
  import Abstract

  /** `len(m)`: one more than the biggest state, so shifting by it separates the state ranges. */
  ghost function Size(a: Nfa): (r: nat)
    ensures r >= 2 && forall x | x in States(a) :: x < r
  {
    Biggest(a) + 1
  }

  /** `by_value(s)`: `0 -s-> 1`, starting at 0, accepting at 1. */
  function ByValueSpec(c: char): Nfa {
    Nfa({0}, {1}, {Move(0, c, 1)})
  }

  /** The bridges of `by_concatenation`: a copy of each transition into a final of the left, redirected to each start of the right. */
  function Bridges(t: set<Move>, finals: set<nat>, starts: set<nat>): set<Move> {
    set m, s | m in t && m.end in finals && s in starts :: Move(m.origin, m.symbol, s)
  }

  /** `by_concatenation(m1, m2)` with `m2` already shifted by `len(m1)`. */
  function ConcatShifted(a: Nfa, b: Nfa): Nfa {
    Nfa(if a.starts * a.finals != {} then a.starts + b.starts else a.starts,
        b.finals,
        a.moves + b.moves + Bridges(a.moves, a.finals, b.starts))
  }

  /** `by_concatenation(m1, m2)`. */
  ghost function ByConcatenationSpec(a: Nfa, b: Nfa): Nfa {
    ConcatShifted(a, Shift(b, Size(a)))
  }

  /** `by_decision(m1, m2)`: the union of `m1` and `m2` shifted by `len(m1)`. */
  ghost function ByDecisionSpec(a: Nfa, b: Nfa): Nfa {
    var b' := Shift(b, Size(a));
    Nfa(a.starts + b'.starts, a.finals + b'.finals, a.moves + b'.moves)
  }

  /** The first copies of `by_closure`: each transition leaving a start, made to leave from the hub. */
  function HubOut(t: set<Move>, starts: set<nat>, hub: nat): set<Move> {
    set m | m in t && m.origin in starts :: Move(hub, m.symbol, m.end)
  }

  /** The second copies of `by_closure`: each transition entering a final, made to enter the hub. */
  function HubIn(t: set<Move>, finals: set<nat>, hub: nat): set<Move> {
    set m | m in t && m.end in finals :: Move(m.origin, m.symbol, hub)
  }

  /** `by_closure(m)`: hub `biggest + 1` is the only start and the only final. */
  ghost function ByClosureSpec(a: Nfa): Nfa {
    var hub := Size(a);
    var trans := a.moves + HubOut(a.moves, a.starts, hub);
    Nfa({hub}, {hub}, trans + HubIn(trans, a.finals, hub))
  }

  class NDFA {
    var I: set<nat>
    var stepStates: set<nat>
    var T: NonDetTransitions
    var F: set<nat>
    var biggest: nat

    /** The automaton the object stands for. */
    function Value(): Nfa
      reads this, T
    {
      Nfa(I, F, T.moves)
    }

    /** `_biggest_state` is up to date with I, F and T. */
    ghost predicate Valid()
      reads this, T
    {
      biggest == Biggest(Value())
    }

    /** `NDFA(starts, finals, trans)`: stepping starts at the starts; the biggest state is computed by three loops. */
    constructor (starts: set<nat>, finals: set<nat>, trans: NonDetTransitions)
      ensures I == starts && F == finals && T == trans && stepStates == starts
      ensures Valid()
    {
      var maxState := MaxOverMoves(trans.moves, 1);
      maxState := MaxOverStates(starts, maxState);
      maxState := MaxOverStates(finals, maxState);
      I := starts;
      stepStates := starts;
      T := trans;
      F := finals;
      biggest := maxState;
      new;
      BiggestIs(Value(), maxState);
    }

    /** `put(symb)`: the current states become all their successors on `symbol`; true when some remain. */
    method Put(symbol: char) returns (moved: bool)
      modifies this
      ensures stepStates == Step(T.moves, old(stepStates), symbol)
      ensures moved <==> stepStates != {}
      ensures I == old(I) && F == old(F) && T == old(T) && biggest == old(biggest)
    {
      var newStates := Successors(T, stepStates, symbol);
      stepStates := newStates;
      moved := |newStates| > 0;
      assert moved <==> newStates != {} by {
        if newStates != {} {
          var x :| x in newStates;
        }
      }
    }

    /** `reset`: back to the start states. */
    method Reset()
      modifies this
      ensures stepStates == I
      ensures I == old(I) && F == old(F) && T == old(T) && biggest == old(biggest)
    {
      stepStates := I;
    }

    /** `is_final_state`: some current state is final. */
    function IsFinalState(): (r: bool)
      reads this
      ensures r <==> exists q :: q in stepStates && q in F
    {
      assert forall q :: q in stepStates && q in F ==> q in stepStates * F;
      |stepStates * F| > 0
    }

    /** `len`: one past every state of the automaton. */
    function Len(): (r: nat)
      reads this, T
      requires Valid()
      ensures r == Size(Value())
      ensures forall x | x in States(Value()) :: x < r
    {
      biggest + 1
    }

    /** `copy`: a fresh automaton over copies of I, F and T. */
    method Copy() returns (r: NDFA)
      ensures fresh(r) && fresh(r.T)
      ensures r.Value() == Value() && r.stepStates == I && r.Valid()
    {
      var t := T.Copy();
      r := new NDFA(I, F, t);
    }
  }

  /** `shifting(m, n)`: a new automaton with `n` added to every state, through `map` and two loops. */
  method Shifting(a: NDFA, n: nat) returns (r: NDFA)
    ensures fresh(r) && fresh(r.T)
    ensures r.Value() == Shift(a.Value(), n) && r.Valid() && r.stepStates == r.I
  {
    var newTrans := new NonDetTransitions({});
    var _ := Abstract.Map(a.T, newTrans, x => x + n, x => x + n);
    Abstract.RenamedByShift(a.T.moves, n);
    var newStarts := ShiftSet(a.I, n);
    var newFinals := ShiftSet(a.F, n);
    r := new NDFA(newStarts, newFinals, newTrans);
  }

  /** `by_value(s)`. */
  method ByValue(c: char) returns (r: NDFA)
    ensures fresh(r) && fresh(r.T)
    ensures r.Value() == ByValueSpec(c) && r.Valid() && r.stepStates == r.I
  {
    var t := new NonDetTransitions({Move(0, c, 1)});
    r := new NDFA({0}, {1}, t);
  }

  /** The inner bridges loop: `origin -symbol-> s` for each `s` in `targets`. */
  method AddToEach(r: NonDetTransitions, origin: nat, symbol: char, targets: set<nat>)
    modifies r
    ensures r.moves == old(r.moves) + set s | s in targets :: Move(origin, symbol, s)
  {
    var rest := targets;
    while rest != {}
      invariant rest <= targets
      invariant r.moves == old(r.moves) + set s | s in targets - rest :: Move(origin, symbol, s)
      decreases |rest|
    {
      var s :| s in rest;
      r.Add(origin, symbol, s);
      assert targets - (rest - {s}) == (targets - rest) + {s};
      rest := rest - {s};
    }
  }

  lemma BridgesStep(done: set<Move>, m: Move, finals: set<nat>, starts: set<nat>)
    ensures Bridges(done + {m}, finals, starts)
         == Bridges(done, finals, starts) + (if m.end in finals then set s | s in starts :: Move(m.origin, m.symbol, s) else {})
  {
  }

  /** One pass of the bridges loop: the bridges of `m`, if it ends in a final. */
  method AddBridgesOf(r: NonDetTransitions, ghost done: set<Move>, m: Move, finals: set<nat>, starts: set<nat>)
    requires r.moves == Bridges(done, finals, starts)
    modifies r
    ensures r.moves == Bridges(done + {m}, finals, starts)
  {
    BridgesStep(done, m, finals, starts);
    if m.end in finals {
      AddToEach(r, m.origin, m.symbol, starts);
    }
  }

  /** The bridges loop of `by_concatenation`. */
  method AddBridges(t: set<Move>, finals: set<nat>, starts: set<nat>) returns (r: NonDetTransitions)
    ensures fresh(r) && r.moves == Bridges(t, finals, starts)
  {
    r := new NonDetTransitions({});
    var todo := t;
    ghost var done: set<Move> := {};
    while todo != {}
      invariant todo <= t && done == t - todo
      invariant r.moves == Bridges(done, finals, starts)
      invariant fresh(r)
      decreases |todo|
    {
      var m :| m in todo;
      AddBridgesOf(r, done, m, finals, starts);
      done := done + {m};
      todo := todo - {m};
    }
  }

  /** `by_concatenation(m1, m2)`. */
  method ByConcatenation(m1: NDFA, m2: NDFA) returns (r: NDFA)
    requires m1.Valid()
    ensures fresh(r) && fresh(r.T)
    ensures r.Value() == ByConcatenationSpec(m1.Value(), m2.Value()) && r.Valid() && r.stepStates == r.I
  {
    var shift := m1.Len();
    var m2' := Shifting(m2, shift);
    var newI := m1.I;
    var newF := m2'.F;
    if |m1.I * m1.F| > 0 {
      newI := newI + m2'.I;
    }
    var bridges := AddBridges(m1.T.moves, m1.F, m2'.I);
    var u := m1.T.Union(m2'.T);
    var t := u.Union(bridges);
    r := new NDFA(newI, newF, t);
  }

  /** `by_decision(m1, m2)`. */
  method ByDecision(m1: NDFA, m2: NDFA) returns (r: NDFA)
    requires m1.Valid()
    ensures fresh(r) && fresh(r.T)
    ensures r.Value() == ByDecisionSpec(m1.Value(), m2.Value()) && r.Valid() && r.stepStates == r.I
  {
    var shift := m1.Len();
    var m2' := Shifting(m2, shift);
    var t := m1.T.Union(m2'.T);
    r := new NDFA(m1.I + m2'.I, m1.F + m2'.F, t);
  }

  /** The first loop of `by_closure`: each transition of `t` leaving a start is added again, leaving from the hub. */
  method AddHubOut(dst: NonDetTransitions, t: set<Move>, starts: set<nat>, hub: nat)
    modifies dst
    ensures dst.moves == old(dst.moves) + HubOut(t, starts, hub)
  {
    var todo := t;
    while todo != {}
      invariant todo <= t && dst.moves == old(dst.moves) + HubOut(t - todo, starts, hub)
      decreases |todo|
    {
      var x :| x in todo;
      if x.origin in starts {
        dst.Add(hub, x.symbol, x.end);
      }
      assert t - (todo - {x}) == (t - todo) + {x};
      todo := todo - {x};
    }
  }

  /** The second loop of `by_closure`: each transition of `t` entering a final is added again, entering the hub. */
  method AddHubIn(dst: NonDetTransitions, t: set<Move>, finals: set<nat>, hub: nat)
    modifies dst
    ensures dst.moves == old(dst.moves) + HubIn(t, finals, hub)
  {
    var todo := t;
    while todo != {}
      invariant todo <= t && dst.moves == old(dst.moves) + HubIn(t - todo, finals, hub)
      decreases |todo|
    {
      var x :| x in todo;
      if x.end in finals {
        dst.Add(x.origin, x.symbol, hub);
      }
      assert t - (todo - {x}) == (t - todo) + {x};
      todo := todo - {x};
    }
  }

  /** `by_closure(m)`. */
  method ByClosure(m: NDFA) returns (r: NDFA)
    requires m.Valid()
    ensures fresh(r) && fresh(r.T)
    ensures r.Value() == ByClosureSpec(m.Value()) && r.Valid() && r.stepStates == r.I
  {
    ghost var a := m.Value();
    var hub := m.biggest + 1;
    assert hub == Size(a);
    var trans := m.T.Copy();
    AddHubOut(trans, m.T.moves, m.I, hub);
    ghost var out := trans.moves;
    assert out == a.moves + HubOut(a.moves, a.starts, hub);
    var tr2 := trans.Copy();
    AddHubIn(tr2, trans.moves, m.F, hub);
    assert tr2.moves == out + HubIn(out, a.finals, hub);
    r := new NDFA({hub}, {hub}, tr2);
  }
}
