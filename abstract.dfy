/**
 * automata/abstract.py: `map` copies a transition table into another one through
 * two state-renaming functions. automaton/abstract.py is the same function with a
 * docstring, and the `map` methods of automata/nondetautomata.py and
 * automata/ndautomata.py run the same loop with the source table as `self`.
 */
module Abstract {
  import opened Outcomes
  import opened Nfas
  import opened Transitions

  /** The transitions of `t` with their origins renamed by `mapOrig` and their ends by `mapEnd`. */
  function Renamed(t: set<Move>, mapOrig: nat -> nat, mapEnd: nat -> nat): set<Move> {
    set m | m in t :: Move(mapOrig(m.origin), m.symbol, mapEnd(m.end))
  }

  /**
   * `map(src, dst, map_orig, map_end)`: refuses to copy a table into itself; otherwise
   * `dst` gains the renamed transitions of `src`, keeps its own, and `src` is untouched.
   */
  method Map(src: NonDetTransitions, dst: NonDetTransitions, mapOrig: nat -> nat, mapEnd: nat -> nat)
    returns (r: Result<(), RuntimeError>)
    modifies dst
    ensures src == dst ==> r == Err(SameCollection) && dst.moves == old(dst.moves)
    ensures src != dst ==> r == Ok(()) && src.moves == old(src.moves)
    ensures src != dst ==> dst.moves == old(dst.moves) + Renamed(old(src.moves), mapOrig, mapEnd)
  {
    if src == dst {
      return Err(SameCollection);
    }
    var todo := src.moves;
    while todo != {}
      invariant src.moves == old(src.moves) && todo <= src.moves
      invariant dst.moves == old(dst.moves) + Renamed(src.moves - todo, mapOrig, mapEnd)
      decreases |todo|
    {
      var m :| m in todo;
      dst.Add(mapOrig(m.origin), m.symbol, mapEnd(m.end));
      assert src.moves - (todo - {m}) == (src.moves - todo) + {m};
      todo := todo - {m};
    }
    return Ok(());
  }

  /** Renaming both ends by `x + n` is shifting by `n`. */
  lemma RenamedByShift(t: set<Move>, n: nat)
    ensures Renamed(t, x => x + n, x => x + n) == ShiftMoves(t, n)
  {
  }
}
