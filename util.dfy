/**
 * util.py: `verify_expression`, the match driver. It resets the automaton, feeds the word
 * one `put` per symbol, answers false at the first `put` that finds no move, and otherwise
 * asks the automaton whether it ended in a final state. The callers pass the automaton
 * `translate` builds (an `NDAutomata`); the driver is modelled for it and for the
 * deterministic automaton, which offers the same three methods.
 *
 * As written the last call is `in_final_state`, a name no automaton class defines (they
 * define `is_final_state`), so every word that survives the `put` loop raises
 * AttributeError. `corrected` selects between that and the evidently intended call.
 */
module Util {
  import opened Outcomes
  import opened Nfas
  import NdAutomata
  import DetAutomata

  /** `verify_expression(a, w)` for the automaton `translate` builds. */
  method VerifyExpression(a: NdAutomata.NDAutomata, w: string, corrected: bool) returns (r: Result<bool, RuntimeError>)
    modifies a
    ensures a.trans == old(a.trans) && a.final == old(a.final)
    ensures Run(a.trans.moves, {0}, w) == {} ==> r == Ok(false)
    ensures Run(a.trans.moves, {0}, w) != {} && !corrected ==> r == Err(AttributeError)
    ensures corrected ==> r == Ok(Accepts(a.Value(), w))
  {
    ghost var t := a.trans.moves;
    a.Reset();
    var i := 0;
    while i < |w|
      invariant 0 <= i <= |w|
      invariant a.trans == old(a.trans) && a.final == old(a.final) && a.trans.moves == t
      invariant a.states == Run(t, {0}, w[..i]) && a.states != {}
    {
      var moved := a.Put(w[i]);
      PrefixSnoc(w, i);
      RunAppend(t, {0}, w[..i], [w[i]]);
      if !moved {
        RunAppend(t, {0}, w[..i + 1], w[i + 1..]);
        RunEmpty(t, w[i + 1..]);
        assert w[..i + 1] + w[i + 1..] == w;
        RunAccepts(a.Value(), w);
        return Ok(false);
      }
      i := i + 1;
    }
    assert w[..i] == w;
    RunAccepts(a.Value(), w);
    if corrected {
      return Ok(a.IsFinalState());
    }
    return Err(AttributeError);
  }

  /** `verify_expression(a, w)` for a deterministic automaton. */
  method VerifyDeterministic(a: DetAutomata.DetAutomata, w: string, corrected: bool) returns (r: Result<bool, RuntimeError>)
    modifies a
    ensures a.trans == old(a.trans) && a.finals == old(a.finals)
    ensures DetAutomata.Run(a.trans.graph, 0, w) == -1 ==> r == Ok(false)
    ensures DetAutomata.Run(a.trans.graph, 0, w) != -1 && !corrected ==> r == Err(AttributeError)
    ensures corrected ==> r == Ok(DetAutomata.Accepts(a.trans.graph, a.finals, w))
  {
    ghost var g := a.trans.graph;
    a.Reset();
    var i := 0;
    while i < |w|
      invariant 0 <= i <= |w|
      invariant a.trans == old(a.trans) && a.finals == old(a.finals) && a.trans.graph == g
      invariant a.state == DetAutomata.Run(g, 0, w[..i]) && a.state != -1
    {
      var moved := a.Put(w[i]);
      PrefixSnoc(w, i);
      DetAutomata.RunAppend(g, 0, w[..i], [w[i]]);
      if !moved {
        DetAutomata.RunAppend(g, 0, w[..i + 1], w[i + 1..]);
        DetAutomata.RunDead(g, w[i + 1..]);
        assert w[..i + 1] + w[i + 1..] == w;
        return Ok(false);
      }
      i := i + 1;
    }
    assert w[..i] == w;
    if corrected {
      return Ok(a.IsFinalState());
    }
    return Err(AttributeError);
  }
}
