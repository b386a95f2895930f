/**
 * What every automaton of the engine denotes. A transition table is the set of
 * `(origin, symbol, end)` triples its nested dictionaries hold (iterating a table
 * yields exactly these triples, and `add` never leaves an empty inner entry, so
 * "no key" and "no triple" coincide). There are no empty-word moves.
 */
module Nfas {

  /** One transition `origin -symbol-> end`. */
  datatype Move = Move(origin: nat, symbol: char, end: nat)

  /** An automaton as a value: start states `I`, final states `F`, transitions `T`. */
  datatype Nfa = Nfa(starts: set<nat>, finals: set<nat>, moves: set<Move>)

  function Origins(t: set<Move>): set<nat> {
    set m | m in t :: m.origin
  }

  function Ends(t: set<Move>): set<nat> {
    set m | m in t :: m.end
  }

  /** Every state an automaton mentions. */
  function States(a: Nfa): set<nat> {
    a.starts + a.finals + Origins(a.moves) + Ends(a.moves)
  }

  /** The largest element of a non-empty set. */
  ghost function MaxOf(s: set<nat>): (r: nat)
    requires s != {}
    ensures r in s && forall x | x in s :: x <= r
  {
    var x :| x in s;
    if s == {x} then x
    else
      var y := MaxOf(s - {x});
      assert forall z | z in s :: z == x || z in s - {x};
      if x < y then y else x
  }

  lemma MaxOfUnique(s: set<nat>, r: nat)
    requires r in s && forall x | x in s :: x <= r
    ensures MaxOf(s) == r
  {
  }

  /** `_biggest_state` of the multi-start automata: the largest of 1 and every state in I, F and T. */
  ghost function Biggest(a: Nfa): (r: nat)
    ensures r >= 1 && forall x | x in States(a) :: x <= r
  {
    MaxOf({1} + States(a))
  }

  /** The states reachable from `s` by one `c` move: what `put` collects. */
  function Step(t: set<Move>, s: set<nat>, c: char): (r: set<nat>)
    ensures forall e :: e in r <==> exists o :: o in s && Move(o, c, e) in t
  {
    var r := set m | m in t && m.origin in s && m.symbol == c :: m.end;
    assert forall e :: (exists o :: o in s && Move(o, c, e) in t) ==> e in r by {
      forall e, o | o in s && Move(o, c, e) in t
        ensures e in r
      {
        var m := Move(o, c, e);
        assert m in t && m.origin in s && m.symbol == c;
      }
    }
    r
  }

  /** Stepping through a union of tables steps through each. */
  lemma StepUnion(t1: set<Move>, t2: set<Move>, s: set<nat>, c: char)
    ensures Step(t1 + t2, s, c) == Step(t1, s, c) + Step(t2, s, c)
  {
  }

  /** Stepping through a single transition. */
  lemma StepSingle(m: Move, s: set<nat>, c: char)
    ensures Step({m}, s, c) == if m.origin in s && m.symbol == c then {m.end} else {}
  {
  }

  /** The set of states after reading `w` from the states `s`, one `put` per symbol. */
  function Run(t: set<Move>, s: set<nat>, w: string): set<nat>
    decreases |w|
  {
    if w == [] then s else Run(t, Step(t, s, w[0]), w[1..])
  }

  /** Reading one symbol, then the rest. */
  lemma RunCons(t: set<Move>, s: set<nat>, c: char, w: string)
    ensures Run(t, s, [c] + w) == Run(t, Step(t, s, c), w)
  {
    assert ([c] + w)[0] == c && ([c] + w)[1..] == w;
  }

  /** Reading `u` and then `v` is reading `u + v`. */
  lemma {:induction false} RunAppend(t: set<Move>, s: set<nat>, u: string, v: string)
    ensures Run(t, s, u + v) == Run(t, Run(t, s, u), v)
    decreases |u|
  {
    if u == [] {
      assert u + v == v;
    } else {
      assert (u + v)[0] == u[0] && (u + v)[1..] == u[1..] + v;
      RunAppend(t, Step(t, s, u[0]), u[1..], v);
    }
  }

  /** `q` can be reached from `p` by reading exactly `w`. */
  ghost predicate Path(t: set<Move>, p: nat, w: string, q: nat)
    decreases |w|
  {
    if w == [] then p == q
    else exists e :: Move(p, w[0], e) in t && Path(t, e, w[1..], q)
  }

  /** The automaton accepts `w`: some start reaches some final by reading `w`. */
  ghost predicate Accepts(a: Nfa, w: string) {
    exists p, q :: p in a.starts && q in a.finals && Path(a.moves, p, w, q)
  }

  /** Stepping a set of states is the same as following paths from each of them. */
  lemma {:induction false} RunPath(t: set<Move>, s: set<nat>, w: string, q: nat)
    ensures q in Run(t, s, w) <==> exists p :: p in s && Path(t, p, w, q)
    decreases |w|
  {
    if w != [] {
      var s' := Step(t, s, w[0]);
      RunPath(t, s', w[1..], q);
      if q in Run(t, s, w) {
        var e :| e in s' && Path(t, e, w[1..], q);
        var p :| p in s && Move(p, w[0], e) in t;
        assert Path(t, p, w, q);
      }
      if exists p :: p in s && Path(t, p, w, q) {
        var p :| p in s && Path(t, p, w, q);
        var e :| Move(p, w[0], e) in t && Path(t, e, w[1..], q);
        assert e in s';
      }
    }
  }

  /** Acceptance by stepping (`reset`, one `put` per symbol, `is_final_state`) is acceptance by paths. */
  lemma RunAccepts(a: Nfa, w: string)
    ensures Run(a.moves, a.starts, w) * a.finals != {} <==> Accepts(a, w)
  {
    if Run(a.moves, a.starts, w) * a.finals != {} {
      var q :| q in Run(a.moves, a.starts, w) * a.finals;
      RunPath(a.moves, a.starts, w, q);
    }
    if Accepts(a, w) {
      var p, q :| p in a.starts && q in a.finals && Path(a.moves, p, w, q);
      RunPath(a.moves, a.starts, w, q);
      assert q in Run(a.moves, a.starts, w) * a.finals;
    }
  }

  /** Once no state is left, none comes back: stopping at the first failed `put` changes nothing. */
  lemma {:induction false} RunEmpty(t: set<Move>, w: string)
    ensures Run(t, {}, w) == {}
    decreases |w|
  {
    if w != [] {
      assert Step(t, {}, w[0]) == {};
      RunEmpty(t, w[1..]);
    }
  }

  lemma {:induction false} PathAppend(t: set<Move>, p: nat, u: string, r: nat, v: string, q: nat)
    requires Path(t, p, u, r) && Path(t, r, v, q)
    ensures Path(t, p, u + v, q)
    decreases |u|
  {
    if u == [] {
      assert u + v == v;
    } else {
      var e :| Move(p, u[0], e) in t && Path(t, e, u[1..], r);
      PathAppend(t, e, u[1..], r, v, q);
      assert (u + v)[0] == u[0] && (u + v)[1..] == u[1..] + v;
    }
  }

  lemma {:induction false} PathSplit(t: set<Move>, p: nat, u: string, v: string, q: nat)
    requires Path(t, p, u + v, q)
    ensures exists r :: Path(t, p, u, r) && Path(t, r, v, q)
    decreases |u|
  {
    if u == [] {
      assert u + v == v;
      assert Path(t, p, u, p);
    } else {
      assert (u + v)[0] == u[0] && (u + v)[1..] == u[1..] + v;
      var e :| Move(p, u[0], e) in t && Path(t, e, u[1..] + v, q);
      PathSplit(t, e, u[1..], v, q);
      var r :| Path(t, e, u[1..], r) && Path(t, r, v, q);
      assert Path(t, p, u, r);
    }
  }

  /** A prefix one symbol longer is the prefix followed by that symbol. */
  lemma PrefixSnoc(w: string, k: nat)
    requires k < |w|
    ensures w[..k] + [w[k]] == w[..k + 1]
  {
  }

  /** A path of one symbol is one move. */
  lemma PathOne(t: set<Move>, p: nat, c: char, q: nat)
    ensures Path(t, p, [c], q) <==> Move(p, c, q) in t
  {
    assert [c][1..] == [];
    assert Path(t, q, [], q);
  }

  lemma {:induction false} PathMono(t: set<Move>, t': set<Move>, p: nat, w: string, q: nat)
    requires t <= t' && Path(t, p, w, q)
    ensures Path(t', p, w, q)
    decreases |w|
  {
    if w != [] {
      var e :| Move(p, w[0], e) in t && Path(t, e, w[1..], q);
      PathMono(t, t', e, w[1..], q);
    }
  }

  /** The empty word is accepted exactly when a start state is final. */
  lemma AcceptsEmpty(a: Nfa)
    ensures Accepts(a, []) <==> a.starts * a.finals != {}
  {
    if a.starts * a.finals != {} {
      var p :| p in a.starts * a.finals;
      assert Path(a.moves, p, [], p);
    }
    if Accepts(a, []) {
      var p, q :| p in a.starts && q in a.finals && Path(a.moves, p, [], q);
      assert p in a.starts * a.finals;
    }
  }

  /** A set of states with `n` added to each. */
  function ShiftStates(s: set<nat>, n: nat): set<nat> {
    set x | x in s :: x + n
  }

  /** A table with `n` added to both ends of each transition. */
  function ShiftMoves(t: set<Move>, n: nat): set<Move> {
    set m | m in t :: Move(m.origin + n, m.symbol, m.end + n)
  }

  /** `shifting`: `n` added to every state in I, F and T. */
  function Shift(a: Nfa, n: nat): Nfa {
    Nfa(ShiftStates(a.starts, n), ShiftStates(a.finals, n), ShiftMoves(a.moves, n))
  }

  /** A move of a shifted table is a move of the original table, shifted. */
  lemma ShiftedMove(t: set<Move>, n: nat, p: nat, c: char, e': nat)
    requires Move(p + n, c, e') in ShiftMoves(t, n)
    ensures e' >= n && Move(p, c, e' - n) in t
  {
    var m :| m in t && Move(m.origin + n, m.symbol, m.end + n) == Move(p + n, c, e');
    assert m == Move(p, c, e' - n);
  }

  lemma {:induction false} ShiftPathUp(t: set<Move>, n: nat, p: nat, w: string, q: nat)
    requires Path(t, p, w, q)
    ensures Path(ShiftMoves(t, n), p + n, w, q + n)
    decreases |w|
  {
    if w != [] {
      var e: nat :| Move(p, w[0], e) in t && Path(t, e, w[1..], q);
      ShiftPathUp(t, n, e, w[1..], q);
      var m := Move(p, w[0], e);
      assert Move(m.origin + n, m.symbol, m.end + n) in ShiftMoves(t, n);
    }
  }

  lemma {:induction false} ShiftPathDown(t: set<Move>, n: nat, p: nat, w: string, q: nat)
    requires Path(ShiftMoves(t, n), p + n, w, q + n)
    ensures Path(t, p, w, q)
    decreases |w|
  {
    if w != [] {
      var e': nat :| Move(p + n, w[0], e') in ShiftMoves(t, n) && Path(ShiftMoves(t, n), e', w[1..], q + n);
      ShiftedMove(t, n, p, w[0], e');
      ShiftPathDown(t, n, e' - n, w[1..], q);
    }
  }

  /** Shifting renames states and nothing else: paths correspond one to one. */
  lemma ShiftPath(t: set<Move>, n: nat, p: nat, w: string, q: nat)
    ensures Path(ShiftMoves(t, n), p + n, w, q + n) <==> Path(t, p, w, q)
  {
    if Path(ShiftMoves(t, n), p + n, w, q + n) {
      ShiftPathDown(t, n, p, w, q);
    }
    if Path(t, p, w, q) {
      ShiftPathUp(t, n, p, w, q);
    }
  }

  /** A shifted automaton accepts the same words. */
  lemma ShiftAccepts(a: Nfa, n: nat, w: string)
    ensures Accepts(Shift(a, n), w) <==> Accepts(a, w)
  {
    var b := Shift(a, n);
    if Accepts(b, w) {
      var p', q' :| p' in b.starts && q' in b.finals && Path(b.moves, p', w, q');
      var p :| p in a.starts && p' == p + n;
      var q :| q in a.finals && q' == q + n;
      ShiftPath(a.moves, n, p, w, q);
    }
    if Accepts(a, w) {
      var p, q :| p in a.starts && q in a.finals && Path(a.moves, p, w, q);
      ShiftPath(a.moves, n, p, w, q);
      assert p + n in b.starts && q + n in b.finals;
    }
  }

  /** Every state of a shifted automaton is at least the shift. */
  lemma ShiftAbove(a: Nfa, n: nat)
    ensures forall x | x in States(Shift(a, n)) :: x >= n
  {
    var b := Shift(a, n);
    forall x | x in States(b)
      ensures x >= n
    {
      if x in Origins(b.moves) {
        var m :| m in b.moves && m.origin == x;
      } else if x in Ends(b.moves) {
        var m :| m in b.moves && m.end == x;
      }
    }
  }
}
