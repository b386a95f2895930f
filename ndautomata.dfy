/**
 * automata/ndautomata.py: the single-start automaton the translator builds. Every automaton
 * starts (and resets) in state 0; `biggest_state` counts transition endpoints only. The
 * four combinators are constructors that reset their operands and fill a fresh table with
 * `map`. Each constructor method is proved to build exactly the automaton its specification
 * function describes; Translator shows what those automata accept.
 */
module NdAutomata {
  import opened Outcomes
  import opened Nfas
  import opened Transitions
  import Abstract

  /** `biggest_state`: the largest of 1 and every endpoint of a transition; finals do not count. */
  ghost function EndpointMax(t: set<Move>): (r: nat)
    ensures r >= 1
  {
    Biggest(Nfa({}, {}, t))
  }

  /** Every endpoint is at most `biggest_state`, and it is 1 or an endpoint. */
  lemma EndpointMaxBounds(t: set<Move>)
    ensures forall m | m in t :: m.origin <= EndpointMax(t) && m.end <= EndpointMax(t)
    ensures EndpointMax(t) == 1 || EndpointMax(t) in Origins(t) + Ends(t)
  {
    var b := Biggest(Nfa({}, {}, t));
    forall m | m in t
      ensures m.origin <= b && m.end <= b
    {
      assert m.origin in Origins(t) && m.end in Ends(t);
    }
  }

  /** `ValueAutomata(s)`: `0 -s-> 1`, accepting at 1. */
  function ValueSpec(s: char): Nfa {
    Nfa({0}, {1}, {Move(0, s, 1)})
  }

  /** The `closed` flag of `ConcatenationAutomata`: 0 is a right final and some right transition enters 0. */
  predicate Closed(right: Nfa) {
    0 in right.finals && 0 in Ends(right.moves)
  }

  /** The connections of `ConcatenationAutomata`: each right transition leaving 0, made to leave from each left final. */
  function Connections(t: set<Move>, lfinals: set<nat>, shift: nat): set<Move> {
    set m, f | m in t && m.origin == 0 && f in lfinals :: Move(f, m.symbol, m.end + shift)
  }

  /**
   * `ConcatenationAutomata(left, right)`: the right automaton shifted by the left's biggest
   * state, the connections and the left automaton; the left finals stay final when `closed`.
   */
  ghost function ConcatenationSpec(left: Nfa, right: Nfa): Nfa {
    var shift := EndpointMax(left.moves);
    Nfa({0},
        ShiftStates(right.finals, shift) + (if Closed(right) then left.finals else {}),
        ShiftMoves(right.moves, shift) + Connections(right.moves, left.finals, shift) + left.moves)
  }

  /** The third copy of `DecisionAutomata`: origin 0 stays 0, every other state is shifted. */
  function SharedStart(t: set<Move>, shift: nat): set<Move> {
    set m | m in t :: Move(if m.origin == 0 then 0 else m.origin + shift, m.symbol, m.end + shift)
  }

  /** `DecisionAutomata(left, right)`: the right automaton shifted past the left one, its start merged into 0. */
  ghost function DecisionSpec(left: Nfa, right: Nfa): Nfa {
    var shift := EndpointMax(left.moves) + 1;
    Nfa({0},
        left.finals + ShiftStates(right.finals, shift),
        left.moves + ShiftMoves(right.moves, shift) + SharedStart(right.moves, shift))
  }

  /** `ConcatenationAutomata` once the shift is known. */
  lemma ConcatenationSpecWith(l: Nfa, r: Nfa, shift: nat)
    requires EndpointMax(l.moves) == shift
    ensures ConcatenationSpec(l, r)
         == Nfa({0}, ShiftStates(r.finals, shift) + (if Closed(r) then l.finals else {}),
                ShiftMoves(r.moves, shift) + Connections(r.moves, l.finals, shift) + l.moves)
  {
  }

  /** `DecisionAutomata` once the shift is known. */
  lemma DecisionSpecWith(l: Nfa, r: Nfa, shift: nat)
    requires EndpointMax(l.moves) + 1 == shift
    ensures DecisionSpec(l, r)
         == Nfa({0}, l.finals + ShiftStates(r.finals, shift), l.moves + ShiftMoves(r.moves, shift) + SharedStart(r.moves, shift))
  {
  }

  /** The empty word is accepted by `DecisionAutomata` exactly when the left operand accepts it: the right start is shifted away from 0. */
  lemma DecisionEmptyWord(left: Nfa, right: Nfa)
    ensures Accepts(DecisionSpec(left, right), []) <==> 0 in left.finals
  {
    var shift := EndpointMax(left.moves) + 1;
    assert 0 !in ShiftStates(right.finals, shift);
    AcceptsEmpty(DecisionSpec(left, right));
  }

  /** The first copy of `CliniAutomata`: each transition into a final of the operand made to enter 0 instead. */
  function Looped(t: set<Move>, finals: set<nat>): set<Move> {
    set m | m in t :: Move(m.origin, m.symbol, if m.end in finals then 0 else m.end)
  }

  /** `CliniAutomata(oper)`: the operand with its finals looped back to 0; finals 0 and the operand's biggest state. */
  ghost function CliniSpec(oper: Nfa): Nfa {
    Nfa({0}, {0, EndpointMax(oper.moves)}, Looped(oper.moves, oper.finals) + oper.moves)
  }

  lemma RenamedIdentity(t: set<Move>)
    ensures Abstract.Renamed(t, x => x, x => x) == t
  {
  }

  lemma RenamedSharedStart(t: set<Move>, shift: nat)
    ensures Abstract.Renamed(t, x => if x == 0 then 0 else x + shift, x => x + shift) == SharedStart(t, shift)
  {
  }

  lemma RenamedLooped(t: set<Move>, finals: set<nat>)
    ensures Abstract.Renamed(t, x => x, x => if x in finals then 0 else x) == Looped(t, finals)
  {
  }

  class NDAutomata {
    var states: set<nat>
    var trans: NonDetTransitions
    var final: set<nat>
    var biggest: nat

    /** The automaton the object stands for: start 0, finals `final`, the transitions of `trans`. */
    function Value(): Nfa
      reads this, trans
    {
      Nfa({0}, final, trans.moves)
    }

    /** `biggest_state` is up to date with the transitions. */
    ghost predicate Valid()
      reads this, trans
    {
      biggest == EndpointMax(trans.moves)
    }

    /** `NDAutomata(final, trans)`: current states `{0}`; the biggest state by a loop over the transitions. */
    constructor (final: set<nat>, trans: NonDetTransitions)
      ensures states == {0} && this.final == final && this.trans == trans
      ensures Valid()
    {
      var maxState := MaxOverMoves(trans.moves, 1);
      states := {0};
      this.trans := trans;
      this.final := final;
      biggest := maxState;
      new;
      BiggestIs(Nfa({}, {}, trans.moves), maxState);
    }

    /** `put(symb)`: the current states become all their successors on `symbol`; true when some remain. */
    method Put(symbol: char) returns (moved: bool)
      modifies this
      ensures states == Step(trans.moves, old(states), symbol)
      ensures moved <==> states != {}
      ensures final == old(final) && trans == old(trans) && biggest == old(biggest)
    {
      var newStates := Successors(trans, states, symbol);
      states := newStates;
      moved := |newStates| > 0;
      assert moved <==> newStates != {} by {
        if newStates != {} {
          var x :| x in newStates;
        }
      }
    }

    /** `reset`: back to state 0. */
    method Reset()
      modifies this
      ensures states == {0}
      ensures final == old(final) && trans == old(trans) && biggest == old(biggest)
    {
      states := {0};
    }

    /** `is_final_state`: some current state is final. */
    function IsFinalState(): (r: bool)
      reads this
      ensures r <==> exists q :: q in states && q in final
    {
      assert forall q :: q in states && q in final ==> q in states * final;
      |states * final| > 0
    }
  }

  /** `ValueAutomata(s)`. */
  method ValueAutomata(s: char) returns (r: NDAutomata)
    ensures fresh(r) && fresh(r.trans)
    ensures r.Value() == ValueSpec(s) && r.Valid() && r.states == {0}
  {
    var t := new NonDetTransitions({Move(0, s, 1)});
    r := new NDAutomata({1}, t);
  }

  /** The `closed` loop: whether some transition of `t` ends in `s`. */
  method EndsIn(t: set<Move>, s: nat) returns (found: bool)
    ensures found <==> s in Ends(t)
  {
    found := false;
    var todo := t;
    while todo != {}
      invariant todo <= t
      invariant found <==> exists m :: m in t && m !in todo && m.end == s
      decreases |todo|
    {
      var m :| m in todo;
      if m.end == s {
        found := true;
      }
      todo := todo - {m};
    }
  }

  /** `f -symbol-> end` for each `f` in `origins`. */
  function FromEach(origins: set<nat>, symbol: char, end: nat): set<Move> {
    set f | f in origins :: Move(f, symbol, end)
  }

  /** The inner connections loop: `f -symbol-> end` for each `f` in `origins`. */
  method AddFromEach(r: NonDetTransitions, origins: set<nat>, symbol: char, end: nat)
    modifies r
    ensures r.moves == old(r.moves) + FromEach(origins, symbol, end)
  {
    var rest := origins;
    while rest != {}
      invariant rest <= origins
      invariant r.moves == old(r.moves) + FromEach(origins - rest, symbol, end)
      decreases |rest|
    {
      var f :| f in rest;
      r.Add(f, symbol, end);
      assert origins - (rest - {f}) == (origins - rest) + {f};
      rest := rest - {f};
    }
  }

  lemma ConnectionsStep(done: set<Move>, m: Move, lfinals: set<nat>, shift: nat)
    ensures Connections(done + {m}, lfinals, shift)
         == Connections(done, lfinals, shift) + (if m.origin == 0 then FromEach(lfinals, m.symbol, m.end + shift) else {})
  {
  }

  /** One pass of the connections loop: a right transition leaving 0 is copied from each left final. */
  method ConnectOne(r: NonDetTransitions, ghost done: set<Move>, m: Move, lfinals: set<nat>, shift: nat)
    requires r.moves == Connections(done, lfinals, shift)
    modifies r
    ensures r.moves == Connections(done + {m}, lfinals, shift)
  {
    ConnectionsStep(done, m, lfinals, shift);
    if m.origin == 0 {
      AddFromEach(r, lfinals, m.symbol, m.end + shift);
    }
  }

  /** The connections loop of `ConcatenationAutomata`. */
  method AddConnections(t: set<Move>, lfinals: set<nat>, shift: nat) returns (r: NonDetTransitions)
    ensures fresh(r) && r.moves == Connections(t, lfinals, shift)
  {
    r := new NonDetTransitions({});
    var todo := t;
    ghost var done: set<Move> := {};
    while todo != {}
      invariant todo <= t && done == t - todo
      invariant r.moves == Connections(done, lfinals, shift)
      invariant fresh(r)
      decreases |todo|
    {
      var m :| m in todo;
      ConnectOne(r, done, m, lfinals, shift);
      done := done + {m};
      todo := todo - {m};
    }
  }

  /** The finals loops: `n` added to each state of `s`, gathered into `into`. */
  method AddShifted(into: set<nat>, s: set<nat>, n: nat) returns (r: set<nat>)
    ensures r == into + ShiftStates(s, n)
  {
    r := into;
    var rest := s;
    while rest != {}
      invariant rest <= s && r == into + ShiftStates(s - rest, n)
      decreases |rest|
    {
      var x :| x in rest;
      r := r + {x + n};
      assert s - (rest - {x}) == (s - rest) + {x};
      rest := rest - {x};
    }
    assert s - rest == s;
  }

  lemma ShiftNone(s: set<nat>)
    ensures ShiftStates(s, 0) == s
  {
  }

  /** The table of `ConcatenationAutomata`: the right table shifted, the connections, the left table. */
  method ConcatenationTable(lt: NonDetTransitions, rt: NonDetTransitions, lfinals: set<nat>, shift: nat)
    returns (result: NonDetTransitions)
    ensures fresh(result)
    ensures result.moves == ShiftMoves(rt.moves, shift) + Connections(rt.moves, lfinals, shift) + lt.moves
  {
    result := new NonDetTransitions({});
    var connections := AddConnections(rt.moves, lfinals, shift);
    var _ := Abstract.Map(rt, result, x => x + shift, x => x + shift);
    Abstract.RenamedByShift(rt.moves, shift);
    var _ := Abstract.Map(connections, result, x => x, x => x);
    RenamedIdentity(connections.moves);
    var _ := Abstract.Map(lt, result, x => x, x => x);
    RenamedIdentity(lt.moves);
  }

  /** The table of `DecisionAutomata`: the left table, the right table shifted, and again with origin 0 kept. */
  method DecisionTable(lt: NonDetTransitions, rt: NonDetTransitions, shift: nat) returns (result: NonDetTransitions)
    ensures fresh(result)
    ensures result.moves == lt.moves + ShiftMoves(rt.moves, shift) + SharedStart(rt.moves, shift)
  {
    result := new NonDetTransitions({});
    var _ := Abstract.Map(lt, result, x => x, x => x);
    RenamedIdentity(lt.moves);
    var _ := Abstract.Map(rt, result, x => x + shift, x => x + shift);
    Abstract.RenamedByShift(rt.moves, shift);
    var _ := Abstract.Map(rt, result, x => if x == 0 then 0 else x + shift, x => x + shift);
    RenamedSharedStart(rt.moves, shift);
  }

  /** The table of `CliniAutomata`: the operand table with finals looped back to 0, then the table itself. */
  method CliniTable(t: NonDetTransitions, finals: set<nat>) returns (result: NonDetTransitions)
    ensures fresh(result)
    ensures result.moves == Looped(t.moves, finals) + t.moves
  {
    result := new NonDetTransitions({});
    var _ := Abstract.Map(t, result, x => x, x => if x in finals then 0 else x);
    RenamedLooped(t.moves, finals);
    var _ := Abstract.Map(t, result, x => x, x => x);
    RenamedIdentity(t.moves);
  }

  /** The finals loops of `ConcatenationAutomata`: the right finals shifted, then the left finals when the right start closes a loop. */
  method ConcatenationFinals(lfinals: set<nat>, rfinals: set<nat>, closed: bool, shift: nat) returns (r: set<nat>)
    ensures r == ShiftStates(rfinals, shift) + (if closed then lfinals else {})
  {
    r := AddShifted({}, rfinals, shift);
    if closed {
      r := AddShifted(r, lfinals, 0);
      ShiftNone(lfinals);
    }
  }

  /** `ConcatenationAutomata(left, right)`: both operands are reset and otherwise left as they were. */
  method ConcatenationAutomata(left: NDAutomata, right: NDAutomata) returns (r: NDAutomata)
    requires left.Valid()
    modifies left, right
    ensures fresh(r) && fresh(r.trans)
    ensures r.Value() == ConcatenationSpec(old(left.Value()), old(right.Value())) && r.Valid() && r.states == {0}
    ensures left.states == {0} && right.states == {0}
    ensures left.final == old(left.final) && left.trans == old(left.trans) && left.biggest == old(left.biggest)
    ensures right.final == old(right.final) && right.trans == old(right.trans) && right.biggest == old(right.biggest)
  {
    ghost var l, rt := left.Value(), right.Value();
    left.Reset();
    right.Reset();
    var closed := false;
    if 0 in right.final {
      closed := EndsIn(right.trans.moves, 0);
    }
    var shift := left.biggest;
    var result := ConcatenationTable(left.trans, right.trans, left.final, shift);
    var newFinals := ConcatenationFinals(left.final, right.final, closed, shift);
    assert shift == EndpointMax(l.moves) && closed == Closed(rt);
    ConcatenationSpecWith(l, rt, shift);
    assert newFinals == ShiftStates(rt.finals, shift) + (if Closed(rt) then l.finals else {});
    assert result.moves == ShiftMoves(rt.moves, shift) + Connections(rt.moves, l.finals, shift) + l.moves;
    assert Nfa({0}, newFinals, result.moves) == ConcatenationSpec(l, rt);
    r := new NDAutomata(newFinals, result);
  }

  /** The finals loops of `DecisionAutomata`: the left finals, then the right finals shifted. */
  method DecisionFinals(lfinals: set<nat>, rfinals: set<nat>, shift: nat) returns (r: set<nat>)
    ensures r == lfinals + ShiftStates(rfinals, shift)
  {
    r := AddShifted({}, lfinals, 0);
    ShiftNone(lfinals);
    r := AddShifted(r, rfinals, shift);
  }

  /** `DecisionAutomata(left, right)`: both operands are reset and otherwise left as they were. */
  method DecisionAutomata(left: NDAutomata, right: NDAutomata) returns (r: NDAutomata)
    requires left.Valid()
    modifies left, right
    ensures fresh(r) && fresh(r.trans)
    ensures r.Value() == DecisionSpec(old(left.Value()), old(right.Value())) && r.Valid() && r.states == {0}
    ensures left.states == {0} && right.states == {0}
    ensures left.final == old(left.final) && left.trans == old(left.trans) && left.biggest == old(left.biggest)
    ensures right.final == old(right.final) && right.trans == old(right.trans) && right.biggest == old(right.biggest)
  {
    ghost var l, rt := left.Value(), right.Value();
    left.Reset();
    right.Reset();
    var shift := left.biggest + 1;
    var result := DecisionTable(left.trans, right.trans, shift);
    var newFinals := DecisionFinals(left.final, right.final, shift);
    assert shift == EndpointMax(l.moves) + 1;
    DecisionSpecWith(l, rt, shift);
    assert Nfa({0}, newFinals, result.moves) == DecisionSpec(l, rt);
    r := new NDAutomata(newFinals, result);
  }

  /** `CliniAutomata(oper)`: the operand is reset and otherwise left as it was. */
  method CliniAutomata(oper: NDAutomata) returns (r: NDAutomata)
    requires oper.Valid()
    modifies oper
    ensures fresh(r) && fresh(r.trans)
    ensures r.Value() == CliniSpec(old(oper.Value())) && r.Valid() && r.states == {0}
    ensures oper.states == {0}
    ensures oper.final == old(oper.final) && oper.trans == old(oper.trans) && oper.biggest == old(oper.biggest)
  {
    ghost var o := oper.Value();
    oper.Reset();
    var result := CliniTable(oper.trans, oper.final);
    assert Nfa({0}, {0, oper.biggest}, result.moves) == CliniSpec(o);
    r := new NDAutomata({0, oper.biggest}, result);
  }
}
