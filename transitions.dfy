/**
 * The non-deterministic transition table. automata/ndfa.py, automata/nondetautomata.py
 * and automata/ndautomata.py each define this class (the last one as `NDTransitions`),
 * all three with `add`, a lookup of the ends and `delete`; the first two also have
 * `union` and `copy`, the last two `map`. It is modelled once.
 */
module Transitions {
  import opened Outcomes
  import opened Nfas

  class NonDetTransitions {
    /** The triples held by the nested dictionary `origin -> symbol -> set of ends`. */
    var moves: set<Move>

    /** `NonDetTransitions(d)`: a table over the transitions of `d` (none by default). */
    constructor (moves: set<Move>)
      ensures this.moves == moves
    {
      this.moves := moves;
    }

    /** `add`: one more transition; every other entry is left as it was. */
    method Add(origin: nat, symbol: char, end: nat)
      modifies this
      ensures moves == old(moves) + {Move(origin, symbol, end)}
    {
      moves := moves + {Move(origin, symbol, end)};
    }

    /**
     * `get_end_states` (`get_ends` in ndautomata.py): the ends of the transitions from
     * `origin` on `symbol`, or KeyError when the dictionary has no such entry.
     */
    method GetEndStates(origin: nat, symbol: char) returns (r: Result<set<nat>, RuntimeError>)
      ensures r.Err? <==> Step(moves, {origin}, symbol) == {}
      ensures r.Err? ==> r.error == KeyError
      ensures r.Ok? ==> r.value == Step(moves, {origin}, symbol)
    {
      var ends := set m | m in moves && m.origin == origin && m.symbol == symbol :: m.end;
      assert ends == Step(moves, {origin}, symbol) by {
        forall e | e in Step(moves, {origin}, symbol)
          ensures e in ends
        {
          assert Move(origin, symbol, e) in moves;
        }
      }
      if ends == {} {
        return Err(KeyError);
      }
      return Ok(ends);
    }

    /** `copy`: a fresh table with the same transitions, filled one `add` at a time. */
    method Copy() returns (r: NonDetTransitions)
      ensures fresh(r) && r.moves == moves
    {
      r := new NonDetTransitions({});
      var todo := moves;
      while todo != {}
        invariant fresh(r)
        invariant todo <= moves && r.moves == moves - todo
        decreases |todo|
      {
        var m :| m in todo;
        r.Add(m.origin, m.symbol, m.end);
        todo := todo - {m};
      }
    }

    /** `union`: a fresh table holding the transitions of both tables; neither input changes. */
    method Union(other: NonDetTransitions) returns (r: NonDetTransitions)
      ensures fresh(r) && r.moves == moves + other.moves
    {
      r := Copy();
      var todo := other.moves;
      while todo != {}
        invariant fresh(r)
        invariant todo <= other.moves && r.moves == moves + (other.moves - todo)
        decreases |todo|
      {
        var m :| m in todo;
        r.Add(m.origin, m.symbol, m.end);
        todo := todo - {m};
      }
    }
  }

  /** After `add(f, c, t)`, `t` is among the ends of `(f, c)`, and every other lookup answers as before. */
  lemma AddThenLookup(t: set<Move>, f: nat, c: char, e: nat, o: nat, d: char)
    ensures Step(t + {Move(f, c, e)}, {f}, c) == Step(t, {f}, c) + {e}
    ensures (o, d) != (f, c) ==> Step(t + {Move(f, c, e)}, {o}, d) == Step(t, {o}, d)
  {
  }

  /** The loop of `put`: the ends of every transition on `symbol` from the given states; a missing entry is skipped. */
  method Successors(t: NonDetTransitions, states: set<nat>, symbol: char) returns (r: set<nat>)
    ensures r == Step(t.moves, states, symbol)
  {
    r := {};
    var todo := states;
    while todo != {}
      invariant todo <= states
      invariant r == Step(t.moves, states - todo, symbol)
      decreases |todo|
    {
      var s :| s in todo;
      var ends := t.GetEndStates(s, symbol);
      StepSplit(t.moves, states - todo, s, symbol);
      if ends.Ok? {
        r := r + ends.value;
      }
      assert states - (todo - {s}) == (states - todo) + {s};
      todo := todo - {s};
    }
    assert states - todo == states;
  }

  /** The first loop of the constructor: the largest endpoint of a transition, or `from` if larger. */
  method MaxOverMoves(t: set<Move>, from: nat) returns (r: nat)
    ensures r >= from && (r == from || r in Origins(t) + Ends(t))
    ensures forall m | m in t :: m.origin <= r && m.end <= r
  {
    r := from;
    var todo := t;
    while todo != {}
      invariant todo <= t && r >= from && (r == from || r in Origins(t) + Ends(t))
      invariant forall m | m in t && m !in todo :: m.origin <= r && m.end <= r
      decreases |todo|
    {
      var m :| m in todo;
      assert m.origin in Origins(t) && m.end in Ends(t);
      if m.origin > r {
        r := m.origin;
      }
      if m.end > r {
        r := m.end;
      }
      todo := todo - {m};
    }
  }

  /** The loops of the constructor over I and over F: the largest state of `s`, or `from` if larger. */
  method MaxOverStates(s: set<nat>, from: nat) returns (r: nat)
    ensures r >= from && (r == from || r in s)
    ensures forall x | x in s :: x <= r
  {
    r := from;
    var rest := s;
    while rest != {}
      invariant rest <= s && r >= from && (r == from || r in s)
      invariant forall x | x in s && x !in rest :: x <= r
      decreases |rest|
    {
      var x :| x in rest;
      if x > r {
        r := x;
      }
      rest := rest - {x};
    }
  }

  /** A value proved to be the largest of 1 and every state is `_biggest_state`. */
  lemma BiggestIs(a: Nfa, r: nat)
    requires r >= 1
    requires r == 1 || r in States(a)
    requires forall m | m in a.moves :: m.origin <= r && m.end <= r
    requires forall x | x in a.starts + a.finals :: x <= r
    ensures Biggest(a) == r
  {
    forall x | x in Origins(a.moves) + Ends(a.moves)
      ensures x <= r
    {
      if x in Origins(a.moves) {
        var m :| m in a.moves && m.origin == x;
      } else {
        var m :| m in a.moves && m.end == x;
      }
    }
    MaxOfUnique({1} + States(a), r);
  }

  /** Successors of a union are the union of successors. */
  lemma StepSplit(t: set<Move>, s: set<nat>, x: nat, c: char)
    ensures Step(t, s + {x}, c) == Step(t, s, c) + Step(t, {x}, c)
  {
  }

  /** The loops of `shifting` over I and over F: `n` added to each state. */
  method ShiftSet(s: set<nat>, n: nat) returns (r: set<nat>)
    ensures r == ShiftStates(s, n)
  {
    r := {};
    var rest := s;
    while rest != {}
      invariant rest <= s && r == ShiftStates(s - rest, n)
      decreases |rest|
    {
      var x :| x in rest;
      r := r + {x + n};
      assert s - (rest - {x}) == (s - rest) + {x};
      rest := rest - {x};
    }
    assert s - rest == s;
  }
}
