/**
 * automata/detautomata.py: the deterministic transition table and the deterministic
 * automaton stepping through it. automata/dfa.py repeats both: its `DetTransitions`
 * has the same `add` and `get_end` (without `map`), and its `DFA` is this automaton with
 * the table and finals public, plus `from_ndfa` and `minify` (modules Dfa and DfaMinify).
 * They are modelled once, here.
 */
module DetAutomata {
  import opened Outcomes
  import opened Nfas

  /** A deterministic table: the nested dictionary `origin -> symbol -> end`, flattened. */
  type Graph = map<(nat, char), nat>

  /** Every state a table mentions, as origin or as end. */
  function GraphStates(g: Graph): set<nat> {
    (set k | k in g :: k.0) + (set k | k in g :: g[k])
  }

  /** `__biggest_state`: the largest state of any transition, and at least 1. */
  ghost function GraphBiggest(g: Graph): (r: nat)
    ensures r >= 1 && forall x | x in GraphStates(g) :: x <= r
  {
    MaxOf({1} + GraphStates(g))
  }

  /** The state after one `put`: the end of the transition, or the dead state -1 when there is none. */
  function Next(g: Graph, s: int, c: char): int {
    if s >= 0 && (s as nat, c) in g then g[(s as nat, c)] else -1
  }

  /** The state after a `put` for each symbol of `w` in turn. */
  function Run(g: Graph, s: int, w: string): int
    decreases |w|
  {
    if w == [] then s else Run(g, Next(g, s, w[0]), w[1..])
  }

  /** The automaton started in 0 ends in a final state after reading `w`. */
  predicate Accepts(g: Graph, finals: set<nat>, w: string) {
    var q := Run(g, 0, w);
    q >= 0 && q as nat in finals
  }

  /** Once dead, always dead. */
  lemma {:induction false} RunDead(g: Graph, w: string)
    ensures Run(g, -1, w) == -1
    decreases |w|
  {
    if w != [] {
      RunDead(g, w[1..]);
    }
  }

  /** Reading `u` and then `v` is reading `u + v`. */
  lemma {:induction false} RunAppend(g: Graph, s: int, u: string, v: string)
    ensures Run(g, s, u + v) == Run(g, Run(g, s, u), v)
    decreases |u|
  {
    if u == [] {
      assert u + v == v;
    } else {
      assert (u + v)[0] == u[0] && (u + v)[1..] == u[1..] + v;
      RunAppend(g, Next(g, s, u[0]), u[1..], v);
    }
  }

  /** The keys `map` writes for the transitions of `g` on the keys `done`: each origin renamed, each symbol kept. */
  function RenamedKeys(g: Graph, done: set<(nat, char)>, mapOrig: nat -> nat): set<(nat, char)> {
    set k | k in g && k in done :: (mapOrig(k.0), k.1)
  }

  /** `v` is the renamed end of some transition of `g` whose renamed key is `k`. */
  ghost predicate RenamedFrom(g: Graph, mapOrig: nat -> nat, mapEnd: nat -> nat, k: (nat, char), v: nat) {
    exists k0 | k0 in g :: (mapOrig(k0.0), k0.1) == k && mapEnd(g[k0]) == v
  }

  /** `after` is `before` once the transitions of `g` on the keys `done` have been renamed into it. */
  ghost predicate Wrote(g: Graph, before: Graph, after: Graph, mapOrig: nat -> nat, mapEnd: nat -> nat, done: set<(nat, char)>) {
    && after.Keys == before.Keys + RenamedKeys(g, done, mapOrig)
    && (forall k | k in after && k !in RenamedKeys(g, done, mapOrig) :: after[k] == before[k])
    && (forall k | k in RenamedKeys(g, done, mapOrig) :: RenamedFrom(g, mapOrig, mapEnd, k, after[k]))
  }

  class DetTransitions {
    var graph: Graph

    /** `DetTransitions(d)`: a table over the dictionary `d`. */
    constructor (graph: Graph)
      ensures this.graph == graph
    {
      this.graph := graph;
    }

    /** `add`: sets or overwrites the end of `origin` on `symbol`; every other entry stays. */
    method Add(origin: nat, symbol: char, end: nat)
      modifies this
      ensures graph == old(graph)[(origin, symbol) := end]
    {
      graph := graph[(origin, symbol) := end];
    }

    /** `get_end`: the end of `origin` on `symbol`, or KeyError when there is none (always for the dead state). */
    function GetEnd(origin: int, symbol: char): (r: Result<nat, RuntimeError>)
      reads this
      ensures r.Ok? ==> Next(graph, origin, symbol) == r.value
      ensures r.Err? ==> Next(graph, origin, symbol) == -1 && r.error == KeyError
    {
      if origin >= 0 && (origin as nat, symbol) in graph then Ok(graph[(origin as nat, symbol)]) else Err(KeyError)
    }

    /**
     * `map(dst, trans_orig, trans_end)`: refuses to copy a table into itself; otherwise `dst`
     * gains the renamed keys, each holding the renamed end of one transition that maps
     * onto it (the one `add` wrote last, in the dictionary's order), and keeps its other entries.
     */
    method Map(dst: DetTransitions, mapOrig: nat -> nat, mapEnd: nat -> nat) returns (r: Result<(), RuntimeError>)
      modifies dst
      ensures this == dst ==> r == Err(SameCollection) && dst.graph == old(dst.graph)
      ensures this != dst ==> r == Ok(()) && graph == old(graph)
      ensures this != dst ==> Wrote(graph, old(dst.graph), dst.graph, mapOrig, mapEnd, graph.Keys)
    {
      if this == dst {
        return Err(SameCollection);
      }
      var todo := graph.Keys;
      ghost var done: set<(nat, char)> := {};
      while todo != {}
        invariant graph == old(graph) && todo <= graph.Keys && done == graph.Keys - todo
        invariant Wrote(graph, old(dst.graph), dst.graph, mapOrig, mapEnd, done)
        decreases |todo|
      {
        var k :| k in todo;
        MapOne(graph, dst, old(dst.graph), done, k, mapOrig, mapEnd);
        done := done + {k};
        todo := todo - {k};
      }
      return Ok(());
    }
  }

  /** One pass of the loop of `map`: the transition on `k`, renamed, written into `dst`. */
  method MapOne(g: Graph, dst: DetTransitions, ghost before: Graph, ghost done: set<(nat, char)>, k: (nat, char), mapOrig: nat -> nat, mapEnd: nat -> nat)
    requires k in g && Wrote(g, before, dst.graph, mapOrig, mapEnd, done)
    modifies dst
    ensures Wrote(g, before, dst.graph, mapOrig, mapEnd, done + {k})
  {
    var key := (mapOrig(k.0), k.1);
    dst.Add(key.0, key.1, mapEnd(g[k]));
    assert RenamedKeys(g, done + {k}, mapOrig) == RenamedKeys(g, done, mapOrig) + {key};
    assert RenamedFrom(g, mapOrig, mapEnd, key, dst.graph[key]);
  }

  /** With an injective renaming of origins nothing is overwritten: each renamed key holds its own renamed end. */
  lemma RenamedFromInjective(g: Graph, mapOrig: nat -> nat, mapEnd: nat -> nat, k0: (nat, char), v: nat)
    requires forall x, y :: mapOrig(x) == mapOrig(y) ==> x == y
    requires k0 in g && RenamedFrom(g, mapOrig, mapEnd, (mapOrig(k0.0), k0.1), v)
    ensures v == mapEnd(g[k0])
  {
  }

  /** The largest state of a table, and at least 1: the loop of the constructor. */
  method MaxOverGraph(g: Graph) returns (r: nat)
    ensures r == GraphBiggest(g)
  {
    r := 1;
    var todo := g.Keys;
    while todo != {}
      invariant todo <= g.Keys && r in {1} + GraphStates(g)
      invariant r >= 1 && forall k | k in g && k !in todo :: k.0 <= r && g[k] <= r
      decreases |todo|
    {
      var k :| k in todo;
      if k.0 > r {
        r := k.0;
      }
      if g[k] > r {
        r := g[k];
      }
      todo := todo - {k};
    }
    MaxOfUnique({1} + GraphStates(g), r);
  }

  /** `DetAutomata` (and `DFA` of automata/dfa.py): the current state, the table, the finals. */
  class DetAutomata {
    var state: int
    var trans: DetTransitions
    var finals: set<nat>
    var biggest: nat

    /** `__biggest_state` is up to date with the table. */
    ghost predicate Valid()
      reads this, trans
    {
      biggest == GraphBiggest(trans.graph)
    }

    /** `DetAutomata(trans, fins)`: starts in 0; the biggest state counts transitions only, not finals. */
    constructor (trans: DetTransitions, fins: set<nat>)
      ensures state == 0 && this.trans == trans && finals == fins
      ensures Valid()
    {
      var maxState := MaxOverGraph(trans.graph);
      state := 0;
      this.trans := trans;
      finals := fins;
      biggest := maxState;
    }

    /** `put(symb)`: follows the transition, or falls into the dead state -1 and reports false. */
    method Put(symbol: char) returns (moved: bool)
      modifies this
      ensures state == Next(trans.graph, old(state), symbol)
      ensures moved <==> state != -1
      ensures trans == old(trans) && finals == old(finals) && biggest == old(biggest)
    {
      var r := trans.GetEnd(state, symbol);
      if r.Err? {
        state := -1;
        return false;
      }
      state := r.value;
      return true;
    }

    /** `reset`: back to state 0. */
    method Reset()
      modifies this
      ensures state == 0
      ensures trans == old(trans) && finals == old(finals) && biggest == old(biggest)
    {
      state := 0;
    }

    /** `is_final_state`: the current state is final (never the dead state). */
    function IsFinalState(): (r: bool)
      reads this
      ensures r <==> state >= 0 && state as nat in finals
    {
      state in (set f | f in finals :: f as int)
    }
  }
}
