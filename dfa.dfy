/**
 * automata/dfa.py, first half: the `Mapping` from keys `(finality tag, subset of NFA
 * states)` to dense DFA state numbers, `group`, which collects the successors of a subset
 * symbol by symbol, and `DFA.from_ndfa`, the subset construction over the automaton of
 * automata/ndfa.py. The DFA it returns is the deterministic automaton of module
 * DetAutomata, and it accepts exactly the words the NFA accepts.
 */
module Dfa {
  import opened Outcomes
  import opened Nfas
  import opened Det = DetAutomata
  import Ndfa

  /**
   * The finality tag of a key: `from_ndfa` tags the start subset with a `bool`, `group`
   * tags the others with a set of final states, and `Mapping.map` compares whole keys,
   * so the two kinds never match each other.
   */
  datatype Tag = Flag(b: bool) | Meet(s: set<nat>)

  /** Python truthiness of a tag. */
  predicate Truthy(t: Tag) {
    match t
    case Flag(b) => b
    case Meet(s) => s != {}
  }

  type Key = (Tag, set<nat>)

  /** No key occurs twice. */
  ghost predicate Distinct(to: seq<Key>) {
    forall i, j | 0 <= i < j < |to| :: to[i] != to[j]
  }

  class Mapping {
    var to: seq<Key>
    var inv: map<nat, Key>

    /** `inv` is the inverse of `to`, and `to` holds each key once. */
    ghost predicate Valid()
      reads this
    {
      Distinct(to) && inv == map i: nat | i < |to| :: to[i]
    }

    /** `Mapping()`: no keys yet. */
    constructor ()
      ensures to == [] && Valid()
    {
      to := [];
      inv := map[];
    }

    /** `map(states)`: the number of an equal key already held, or the next free number for a new key. */
    method Map(key: Key) returns (n: nat)
      requires Valid()
      modifies this
      ensures Valid()
      ensures key in old(to) ==> to == old(to)
      ensures key !in old(to) ==> to == old(to) + [key] && n == |old(to)|
      ensures n < |to| && to[n] == key && Unmap(n) == Ok(key)
    {
      var i := 0;
      while i < |to|
        invariant 0 <= i <= |to| && key !in to[..i]
      {
        if to[i] == key {
          return i;
        }
        assert to[..i + 1] == to[..i] + [to[i]];
        i := i + 1;
      }
      assert to[..i] == to;
      n := |to|;
      to := to + [key];
      inv := inv[n := key];
    }

    /** `unmap(number)`: the key with that number, or KeyError. */
    function Unmap(n: nat): (r: Result<Key, RuntimeError>)
      reads this
      requires Valid()
      ensures r.Ok? <==> n < |to|
      ensures r.Ok? ==> r.value == to[n]
      ensures r.Err? ==> r.error == KeyError
    {
      if n in inv then Ok(inv[n]) else Err(KeyError)
    }

    /** `finals()`: the numbers whose tag is truthy. */
    method Finals() returns (f: set<nat>)
      ensures f == set i: nat | i < |to| && Truthy(to[i].0)
    {
      f := {};
      for i := 0 to |to|
        invariant f == set j: nat | j < i && Truthy(to[j].0)
      {
        if Truthy(to[i].0) {
          f := f + {i};
        }
      }
    }
  }

  /** Stepping from a union of states is stepping from each part. */
  lemma StepOfUnion(t: set<Move>, s1: set<nat>, s2: set<nat>, c: char)
    ensures Step(t, s1 + s2, c) == Step(t, s1, c) + Step(t, s2, c)
  {
  }

  /** The tag `group` gives symbol `c` for the states `src`: the finals among the `c`-successors of one of them. */
  ghost predicate TagFrom(t: set<Move>, finals: set<nat>, src: set<nat>, c: char, tag: Tag) {
    && tag.Meet?
    && (Truthy(tag) <==> Step(t, src, c) * finals != {})
    && exists y :: y in src && tag == Meet(finals * Step(t, {y}, c))
  }

  /** What `group` holds for symbol `c` once the states `src` are done. */
  ghost predicate GroupedAt(t: set<Move>, finals: set<nat>, src: set<nat>, d: map<char, Key>, c: char) {
    && (c in d <==> Step(t, src, c) != {})
    && (c in d ==> d[c].1 == Step(t, src, c) && TagFrom(t, finals, src, c, d[c].0))
  }

  /** The key of symbol `s` after `d[s] = (d[s][0] or finality, d[s][1] | end)`, or `(finality, end)` for a new symbol. */
  function Merged(d: map<char, Key>, s: char, finals: set<nat>, end: set<nat>): Key {
    if s in d then (if Truthy(d[s].0) then d[s].0 else Meet(finals * end), d[s].1 + end)
    else (Meet(finals * end), end)
  }

  /** What `group` returns for the states `src`: every symbol grouped. */
  ghost predicate Grouped(t: set<Move>, finals: set<nat>, src: set<nat>, d: map<char, Key>) {
    forall c :: GroupedAt(t, finals, src, d, c)
  }

  /** Merging the ends of state `x` on `s` groups `s` over one more state. */
  lemma MergedAt(t: set<Move>, finals: set<nat>, seen: set<nat>, x: nat, d: map<char, Key>, s: char)
    requires GroupedAt(t, finals, seen, d, s) && Step(t, {x}, s) != {}
    ensures GroupedAt(t, finals, seen + {x}, d[s := Merged(d, s, finals, Step(t, {x}, s))], s)
  {
    StepOfUnion(t, seen, {x}, s);
    var tag := Merged(d, s, finals, Step(t, {x}, s)).0;
    if s in d && Truthy(d[s].0) {
      var y :| y in seen && d[s].0 == Meet(finals * Step(t, {y}, s));
      assert y in seen + {x} && tag == Meet(finals * Step(t, {y}, s));
    } else {
      assert x in seen + {x} && tag == Meet(finals * Step(t, {x}, s));
    }
  }

  /** Halfway through state `x`: the symbols `done` are grouped over `seen` and `x`, the others over `seen`. */
  ghost predicate GroupedHalfway(t: set<Move>, finals: set<nat>, seen: set<nat>, x: nat, done: set<char>, d: map<char, Key>) {
    && (forall c | c !in done :: GroupedAt(t, finals, seen, d, c))
    && (forall c | c in done :: GroupedAt(t, finals, seen + {x}, d, c))
  }

  /** One pass of the inner loop of `group`: symbol `s` of state `x`. */
  method GroupSymbol(t: set<Move>, finals: set<nat>, ghost seen: set<nat>, x: nat, ghost done: set<char>, s: char, d: map<char, Key>)
    returns (d': map<char, Key>)
    requires s !in done && Step(t, {x}, s) != {}
    requires GroupedHalfway(t, finals, seen, x, done, d)
    ensures GroupedHalfway(t, finals, seen, x, done + {s}, d')
  {
    var end := set m | m in t && m.origin == x && m.symbol == s :: m.end;
    assert end == Step(t, {x}, s);
    MergedAt(t, finals, seen, x, d, s);
    d' := d[s := Merged(d, s, finals, end)];
  }

  /** The symbols state `x` has transitions on. */
  function SymbolsOf(t: set<Move>, x: nat): set<char> {
    set m | m in t && m.origin == x :: m.symbol
  }

  lemma SymbolHasStep(t: set<Move>, x: nat, s: char)
    requires s in SymbolsOf(t, x)
    ensures Step(t, {x}, s) != {}
  {
    var m :| m in t && m.origin == x && m.symbol == s;
    assert m.end in Step(t, {x}, s);
  }

  /** The inner loop of `group`: every symbol of state `x` (none when `x` has no entry). */
  method GroupState(t: set<Move>, finals: set<nat>, ghost seen: set<nat>, x: nat, d: map<char, Key>)
    returns (d': map<char, Key>)
    requires Grouped(t, finals, seen, d)
    ensures Grouped(t, finals, seen + {x}, d')
  {
    d' := d;
    var symbols := SymbolsOf(t, x);
    var todo := symbols;
    ghost var done: set<char> := {};
    while todo != {}
      invariant todo <= symbols && done <= symbols && done !! todo
      invariant forall c | c in symbols :: c in done || c in todo
      invariant GroupedHalfway(t, finals, seen, x, done, d')
      decreases |todo|
    {
      var s :| s in todo;
      SymbolHasStep(t, x, s);
      d' := GroupSymbol(t, finals, seen, x, done, s, d');
      done := done + {s};
      todo := todo - {s};
    }
    GroupedAfterState(t, finals, seen, x, done, d');
  }

  /** Once every symbol of `x` is merged, each symbol is grouped over `seen` and `x`: those `x` has no transition on were already. */
  lemma GroupedAfterState(t: set<Move>, finals: set<nat>, seen: set<nat>, x: nat, done: set<char>, d: map<char, Key>)
    requires done <= SymbolsOf(t, x) && forall c | c in SymbolsOf(t, x) :: c in done
    requires GroupedHalfway(t, finals, seen, x, done, d)
    ensures Grouped(t, finals, seen + {x}, d)
  {
    forall c | c !in SymbolsOf(t, x)
      ensures GroupedAt(t, finals, seen + {x}, d, c)
    {
      forall m | m in t && m.origin == x
        ensures m.symbol != c
      {
        assert m.symbol in SymbolsOf(t, x);
      }
      assert Step(t, {x}, c) == {};
      StepOfUnion(t, seen, {x}, c);
      if c in d {
        var y :| y in seen && d[c].0 == Meet(finals * Step(t, {y}, c));
        assert y in seen + {x};
      }
    }
  }

  /**
   * `group(nd, states)`: for each symbol some state of `states` moves on, the key of its
   * successors: the union of their ends, tagged with the finals among the ends of one of
   * the states (the first truthy one in the set's order), truthy exactly when the union
   * meets the finals.
   */
  method Group(nd: Ndfa.NDFA, states: set<nat>) returns (d: map<char, Key>)
    ensures Grouped(nd.T.moves, nd.F, states, d)
  {
    d := map[];
    var t := nd.T.moves;
    var todo := states;
    ghost var seen: set<nat> := {};
    while todo != {}
      invariant todo <= states && seen == states - todo
      invariant Grouped(t, nd.F, seen, d)
      decreases |todo|
    {
      var x :| x in todo;
      d := GroupState(t, nd.F, seen, x, d);
      seen := seen + {x};
      todo := todo - {x};
    }
    assert seen == states;
  }

  /** Every key `from_ndfa` can meet: the start key, and any subset of the ends tagged with any subset of the finals. */
  function AllKeys(t: set<Move>, finals: set<nat>, starts: set<nat>): set<Key> {
    {(Flag(|starts * finals| > 0), starts)} + set e: set<nat>, f: set<nat> | e <= Ends(t) && f <= finals :: (Meet(f), e)
  }

  /** Each key numbered so far is one of `AllKeys`, and its tag is truthy exactly when its subset meets the finals. */
  ghost predicate KeysOk(t: set<Move>, finals: set<nat>, starts: set<nat>, to: seq<Key>) {
    forall i | 0 <= i < |to| :: to[i] in AllKeys(t, finals, starts) && (Truthy(to[i].0) <==> to[i].1 * finals != {})
  }

  /** The key `group` gives a symbol is one of `AllKeys`, tagged truthy exactly when its subset meets the finals. */
  lemma GroupKeyOk(t: set<Move>, finals: set<nat>, starts: set<nat>, src: set<nat>, d: map<char, Key>, c: char)
    requires GroupedAt(t, finals, src, d, c) && c in d
    ensures d[c] in AllKeys(t, finals, starts) && (Truthy(d[c].0) <==> d[c].1 * finals != {})
  {
    var e := d[c].1;
    forall x | x in e
      ensures x in Ends(t)
    {
      var o :| o in src && Move(o, c, x) in t;
      assert Move(o, c, x).end == x;
    }
    var y :| y in src && d[c].0 == Meet(finals * Step(t, {y}, c));
    InAllKeys(t, finals, starts, e, finals * Step(t, {y}, c));
  }

  lemma InAllKeys(t: set<Move>, finals: set<nat>, starts: set<nat>, e: set<nat>, f: set<nat>)
    requires e <= Ends(t) && f <= finals
    ensures (Meet(f), e) in AllKeys(t, finals, starts)
  {
  }

  /** `to` grows only at its end. */
  ghost predicate Extends(before: seq<Key>, after: seq<Key>) {
    |before| <= |after| && after[..|before|] == before
  }

  /** `after` is `before` plus the transitions of number `n`: one per symbol its subset moves on, to the number of the successor subset. */
  ghost predicate Successors(t: set<Move>, to: seq<Key>, n: nat, before: Graph, after: Graph)
    requires n < |to|
  {
    && (forall k :: k in after <==> k in before || (k.0 == n && Step(t, to[n].1, k.1) != {}))
    && (forall k | k in before :: after[k] == before[k])
    && (forall c | (n, c) in after :: after[(n, c)] < |to| && to[after[(n, c)]].1 == Step(t, to[n].1, c))
  }

  /**
   * Part way through the loop over `tr.items()` for number `n`: the keys `to0` grew to `to`,
   * the table `g0` to `g` by the symbols `done`, and the queue `q0` to `q`.
   */
  ghost predicate AddedSoFar(t: set<Move>, finals: set<nat>, starts: set<nat>, n: nat, tr: map<char, Key>, done: set<char>,
                             to0: seq<Key>, to: seq<Key>, g0: Graph, g: Graph, q0: seq<nat>, q: seq<nat>)
  {
    && KeysOk(t, finals, starts, to) && Extends(to0, to)
    && (forall k :: k in g <==> k in g0 || (k.0 == n && k.1 in done))
    && (forall k | k in g0 :: g[k] == g0[k])
    && (forall c | c in done :: g[(n, c)] < |to| && c in tr && to[g[(n, c)]] == tr[c])
    && |q0| <= |q| && q[..|q0|] == q0
    && (forall j | |q0| <= j < |q| :: q[j] < |to|)
    && (forall i | |to0| <= i < |to| :: i in q[|q0|..])
  }

  /** One pass of the loop over `tr.items()`: symbol `c`. */
  method AddSuccessor(known: Mapping, newT: DetTransitions, ghost t: set<Move>, ghost finals: set<nat>, ghost starts: set<nat>,
                      n: nat, tr: map<char, Key>, ghost done: set<char>, c: char,
                      ghost to0: seq<Key>, ghost g0: Graph, ghost q0: seq<nat>, q: seq<nat>)
    returns (q': seq<nat>)
    requires known.Valid() && c in tr && c !in done && n < |to0|
    requires GroupedAt(t, finals, to0[n].1, tr, c)
    requires forall k | k in g0 :: k.0 != n
    requires AddedSoFar(t, finals, starts, n, tr, done, to0, known.to, g0, newT.graph, q0, q)
    modifies known, newT
    ensures known.Valid()
    ensures AddedSoFar(t, finals, starts, n, tr, done + {c}, to0, known.to, g0, newT.graph, q0, q')
  {
    GroupKeyOk(t, finals, starts, to0[n].1, tr, c);
    ghost var to := known.to;
    ghost var g := newT.graph;
    var endNum := known.Map(tr[c]);
    newT.Add(n, c, endNum);
    q' := q + [endNum];
    AddedStep(t, finals, starts, n, tr, done, c, to0, to, known.to, g0, g, q0, q, endNum);
  }

  lemma AddedNothing(t: set<Move>, finals: set<nat>, starts: set<nat>, n: nat, tr: map<char, Key>, to0: seq<Key>, g0: Graph, q0: seq<nat>)
    requires KeysOk(t, finals, starts, to0)
    ensures AddedSoFar(t, finals, starts, n, tr, {}, to0, to0, g0, g0, q0, q0)
  {
    assert to0[..|to0|] == to0 && q0[..|q0|] == q0;
  }

  /** The bookkeeping of one pass of the loop over `tr.items()`. */
  lemma AddedStep(t: set<Move>, finals: set<nat>, starts: set<nat>, n: nat, tr: map<char, Key>, done: set<char>, c: char,
                  to0: seq<Key>, to: seq<Key>, to': seq<Key>, g0: Graph, g: Graph, q0: seq<nat>, q: seq<nat>, endNum: nat)
    requires c in tr && c !in done && n < |to0|
    requires forall k | k in g0 :: k.0 != n
    requires AddedSoFar(t, finals, starts, n, tr, done, to0, to, g0, g, q0, q)
    requires tr[c] in AllKeys(t, finals, starts) && (Truthy(tr[c].0) <==> tr[c].1 * finals != {})
    requires to' == to || (to' == to + [tr[c]] && endNum == |to|)
    requires endNum < |to'| && to'[endNum] == tr[c]
    ensures AddedSoFar(t, finals, starts, n, tr, done + {c}, to0, to', g0, g[(n, c) := endNum], q0, q + [endNum])
  {
    var g', q' := g[(n, c) := endNum], q + [endNum];
    assert (n, c) !in g;
    assert Extends(to, to');
    assert Extends(to0, to') by {
      assert to'[..|to0|] == to'[..|to|][..|to0|];
    }
    assert KeysOk(t, finals, starts, to') by {
      forall i | 0 <= i < |to'|
        ensures to'[i] in AllKeys(t, finals, starts) && (Truthy(to'[i].0) <==> to'[i].1 * finals != {})
      {
        if i < |to| {
          assert to'[i] == to'[..|to|][i];
        }
      }
    }
    forall d | d in done + {c}
      ensures g'[(n, d)] < |to'| && d in tr && to'[g'[(n, d)]] == tr[d]
    {
      if d != c {
        assert to'[g[(n, d)]] == to'[..|to|][g[(n, d)]];
      }
    }
    assert q'[..|q0|] == q0 && q'[|q0|..] == q[|q0|..] + [endNum];
  }

  /**
   * The loop over `tr.items()` of `from_ndfa`: each successor key gets a number, a
   * transition from `n`, and a place on the queue; numbers new to `known` are all queued.
   */
  method AddSuccessors(known: Mapping, newT: DetTransitions, ghost t: set<Move>, ghost finals: set<nat>, ghost starts: set<nat>,
                       n: nat, tr: map<char, Key>, queue: seq<nat>)
    returns (queue': seq<nat>)
    requires known.Valid() && KeysOk(t, finals, starts, known.to) && n < |known.to|
    requires Grouped(t, finals, known.to[n].1, tr)
    requires forall k | k in newT.graph :: k.0 != n
    modifies known, newT
    ensures known.Valid()
    ensures AddedAll(t, finals, starts, n, old(known.to), known.to, old(newT.graph), newT.graph, queue, queue')
  {
    queue' := queue;
    var todo := tr.Keys;
    ghost var done: set<char> := {};
    AddedNothing(t, finals, starts, n, tr, known.to, newT.graph, queue);
    while todo != {}
      invariant todo <= tr.Keys && done !! todo
      invariant forall c | c in tr :: c in done || c in todo
      invariant known.Valid()
      invariant AddedSoFar(t, finals, starts, n, tr, done, old(known.to), known.to, old(newT.graph), newT.graph, queue, queue')
      decreases |todo|
    {
      var c :| c in todo;
      queue' := AddSuccessor(known, newT, t, finals, starts, n, tr, done, c, old(known.to), old(newT.graph), queue, queue');
      done := done + {c};
      todo := todo - {c};
    }
    SuccessorsAdded(t, finals, starts, n, tr, done, old(known.to), known.to, old(newT.graph), newT.graph, queue, queue');
  }

  /**
   * After the loop over `tr.items()`: the keys `to0` grew to `to` and stay well tagged, the
   * table `g0` gained exactly the transitions of `n`, and the queue `q0` grew by numbers
   * of `to`, among them every new one.
   */
  ghost predicate AddedAll(t: set<Move>, finals: set<nat>, starts: set<nat>, n: nat,
                           to0: seq<Key>, to: seq<Key>, g0: Graph, g: Graph, q0: seq<nat>, q: seq<nat>)
  {
    && KeysOk(t, finals, starts, to) && Extends(to0, to) && n < |to|
    && Successors(t, to, n, g0, g)
    && |q0| <= |q| && q[..|q0|] == q0
    && (forall j | |q0| <= j < |q| :: q[j] < |to|)
    && (forall i | |to0| <= i < |to| :: i in q[|q0|..])
  }

  /** Once every symbol of `tr` is added, the table holds exactly the transitions of `n`. */
  lemma SuccessorsAdded(t: set<Move>, finals: set<nat>, starts: set<nat>, n: nat, tr: map<char, Key>, done: set<char>,
                        to0: seq<Key>, to: seq<Key>, g0: Graph, g: Graph, q0: seq<nat>, q: seq<nat>)
    requires n < |to0| && Grouped(t, finals, to0[n].1, tr)
    requires forall k | k in g0 :: k.0 != n
    requires forall c | c in tr :: c in done
    requires AddedSoFar(t, finals, starts, n, tr, done, to0, to, g0, g, q0, q)
    ensures AddedAll(t, finals, starts, n, to0, to, g0, g, q0, q)
  {
    assert to[n] == to[..|to0|][n];
    forall k
      ensures k in g <==> k in g0 || (k.0 == n && Step(t, to[n].1, k.1) != {})
    {
      assert GroupedAt(t, finals, to0[n].1, tr, k.1);
    }
    forall c | (n, c) in g
      ensures g[(n, c)] < |to| && to[g[(n, c)]].1 == Step(t, to[n].1, c)
    {
      assert GroupedAt(t, finals, to0[n].1, tr, c);
    }
  }

  /**
   * The table built so far: only processed numbers have transitions; a processed number
   * moves on `c` exactly when its subset does, to the number of the successor subset.
   */
  ghost predicate Built(t: set<Move>, to: seq<Key>, processed: set<nat>, g: Graph) {
    && (forall k | k in g :: k.0 in processed)
    && (forall p | p in processed :: p < |to|)
    && (forall p, c | p in processed && p < |to| :: (p, c) in g <==> Step(t, to[p].1, c) != {})
    && (forall k | k in g && k.0 < |to| :: g[k] < |to| && to[g[k]].1 == Step(t, to[k.0].1, k.1))
  }

  /** Every number is processed or waits on the queue, and the queue holds numbers only. */
  ghost predicate Covered(to: seq<Key>, processed: set<nat>, queue: seq<nat>) {
    && (forall j | 0 <= j < |queue| :: queue[j] < |to|)
    && (forall i | 0 <= i < |to| :: i in processed || i in queue)
  }

  /** Processing `n` extends the table by the transitions of `n`. */
  lemma BuiltStep(t: set<Move>, finals: set<nat>, starts: set<nat>, n: nat, to0: seq<Key>, to: seq<Key>,
                  processed: set<nat>, g0: Graph, g: Graph, q0: seq<nat>, q: seq<nat>)
    requires n !in processed && n < |to0|
    requires Built(t, to0, processed, g0)
    requires AddedAll(t, finals, starts, n, to0, to, g0, g, q0, q)
    ensures Built(t, to, processed + {n}, g)
  {
    forall p | p in processed
      ensures to[p] == to0[p]
    {
      assert to[p] == to[..|to0|][p];
    }
    forall k | k in g && k.0 < |to|
      ensures g[k] < |to| && to[g[k]].1 == Step(t, to[k.0].1, k.1)
    {
      if k in g0 {
        assert to[g0[k]] == to[..|to0|][g0[k]];
      }
    }
  }

  /** Processing `n` keeps every number processed or queued. */
  lemma CoveredStep(t: set<Move>, finals: set<nat>, starts: set<nat>, n: nat, to0: seq<Key>, to: seq<Key>,
                    processed: set<nat>, g0: Graph, g: Graph, q0: seq<nat>, q: seq<nat>)
    requires Covered(to0, processed, q0 + [n])
    requires AddedAll(t, finals, starts, n, to0, to, g0, g, q0, q)
    ensures Covered(to, processed + {n}, q)
  {
    forall j | 0 <= j < |q|
      ensures q[j] < |to|
    {
      if j < |q0| {
        assert q[j] == q[..|q0|][j] == q0[j] == (q0 + [n])[j];
      }
    }
    forall i | 0 <= i < |to|
      ensures i in processed + {n} || i in q
    {
      if i < |to0| && i !in processed && i != n {
        var j :| 0 <= j < |q0 + [n]| && (q0 + [n])[j] == i;
        assert q[j] == q[..|q0|][j];
      } else if |to0| <= i {
        assert i in q[|q0|..];
        var j :| 0 <= j < |q[|q0|..]| && q[|q0|..][j] == i;
        assert q[|q0| + j] == i;
      }
    }
  }

  /** Skipping a number already processed keeps every number processed or queued. */
  lemma CoveredSkip(to: seq<Key>, processed: set<nat>, n: nat, q0: seq<nat>)
    requires Covered(to, processed, q0 + [n]) && n in processed
    ensures Covered(to, processed, q0)
  {
    forall j | 0 <= j < |q0|
      ensures q0[j] < |to|
    {
      assert q0[j] == (q0 + [n])[j];
    }
    forall i | 0 <= i < |to| && i !in processed
      ensures i in q0
    {
      var j :| 0 <= j < |q0 + [n]| && (q0 + [n])[j] == i;
      assert q0[j] == i;
    }
  }

  /** A sequence without repetitions is no longer than any set holding its elements. */
  lemma {:induction false} DistinctBound(to: seq<Key>, all: set<Key>)
    requires Distinct(to) && forall i | 0 <= i < |to| :: to[i] in all
    ensures |to| <= |all|
    decreases |to|
  {
    if to != [] {
      var last := to[|to| - 1];
      var rest := to[..|to| - 1];
      forall i | 0 <= i < |rest|
        ensures rest[i] in all - {last}
      {
        assert rest[i] == to[i];
      }
      DistinctBound(rest, all - {last});
    }
  }

  /** A set of numbers below `n` has at most `n` elements. */
  lemma {:induction false} IndexBound(p: set<nat>, n: nat)
    requires forall x | x in p :: x < n
    ensures |p| <= n
    decreases n
  {
    if n > 0 {
      IndexBound(p - {n - 1}, n - 1);
    } else {
      assert p == {};
    }
  }

  /** The processed numbers never outnumber the keys `from_ndfa` can meet: the loop ends. */
  lemma ProcessedBound(t: set<Move>, finals: set<nat>, starts: set<nat>, to: seq<Key>, processed: set<nat>)
    requires Distinct(to) && KeysOk(t, finals, starts, to)
    requires forall p | p in processed :: p < |to|
    ensures |processed| <= |AllKeys(t, finals, starts)|
  {
    IndexBound(processed, |to|);
    DistinctBound(to, AllKeys(t, finals, starts));
  }

  /** The table is complete: every number moves on `c` exactly when its subset does, to the number of the successor subset. */
  ghost predicate Closed(t: set<Move>, to: seq<Key>, g: Graph) {
    && (forall p: nat, c | p < |to| :: (p, c) in g <==> Step(t, to[p].1, c) != {})
    && (forall k | k in g :: k.0 < |to| && g[k] < |to| && to[g[k]].1 == Step(t, to[k.0].1, k.1))
  }

  /** Once the queue is empty every number is processed, and the table is complete. */
  lemma BuiltClosed(t: set<Move>, to: seq<Key>, processed: set<nat>, g: Graph)
    requires Built(t, to, processed, g) && Covered(to, processed, [])
    ensures Closed(t, to, g)
  {
    assert forall p: nat | p < |to| :: p in processed;
  }

  /** From number `i`, the DFA tracks the subset of `i`: dead only when the subset empties, else at the number of the successor subset. */
  lemma {:induction false} Tracks(t: set<Move>, to: seq<Key>, g: Graph, i: nat, w: string)
    requires Closed(t, to, g) && i < |to|
    ensures Det.Run(g, i, w) == -1 ==> Nfas.Run(t, to[i].1, w) == {}
    ensures Det.Run(g, i, w) != -1 ==>
              0 <= Det.Run(g, i, w) < |to| && to[Det.Run(g, i, w)].1 == Nfas.Run(t, to[i].1, w)
    decreases |w|
  {
    if w != [] {
      var c := w[0];
      if (i, c) in g {
        Tracks(t, to, g, g[(i, c)], w[1..]);
      } else {
        RunDead(g, w[1..]);
        RunEmpty(t, w[1..]);
      }
    }
  }

  /** The subset construction accepts exactly the words of the NFA whose starts are the subset of number 0. */
  lemma SubsetLanguage(t: set<Move>, finals: set<nat>, starts: set<nat>, to: seq<Key>, g: Graph, dfaFinals: set<nat>, w: string)
    requires Closed(t, to, g) && |to| >= 1 && to[0].1 == starts && KeysOk(t, finals, starts, to)
    requires dfaFinals == set i: nat | i < |to| && Truthy(to[i].0)
    ensures Det.Accepts(g, dfaFinals, w) <==> Nfas.Accepts(Nfa(starts, finals, t), w)
  {
    Tracks(t, to, g, 0, w);
    RunAccepts(Nfa(starts, finals, t), w);
  }

  /** The invariant of the loop of `from_ndfa`, over the keys `to`, the processed numbers, the queue and the table `g`. */
  ghost predicate Progress(t: set<Move>, finals: set<nat>, starts: set<nat>, to: seq<Key>, processed: set<nat>, queue: seq<nat>, g: Graph) {
    && KeysOk(t, finals, starts, to)
    && |to| >= 1 && to[0] == (Flag(|starts * finals| > 0), starts)
    && Covered(to, processed, queue)
    && Built(t, to, processed, g)
    && |processed| <= |AllKeys(t, finals, starts)|
  }

  /**
   * One pass of the loop of `from_ndfa`: pops the last number; skips it when processed,
   * otherwise processes it. Either the queue shrinks or one more number is processed.
   */
  method ProcessNext(nd: Ndfa.NDFA, known: Mapping, newT: DetTransitions, processed: set<nat>, queue: seq<nat>)
    returns (processed': set<nat>, queue': seq<nat>)
    requires queue != [] && known.Valid()
    requires Progress(nd.T.moves, nd.F, nd.I, known.to, processed, queue, newT.graph)
    modifies known, newT
    ensures known.Valid()
    ensures Progress(nd.T.moves, nd.F, nd.I, known.to, processed', queue', newT.graph)
    ensures |processed| <= |processed'| && (|processed'| == |processed| ==> |queue'| < |queue|)
  {
    var n := queue[|queue| - 1];
    if n in processed {
      ProgressSkip(nd.T.moves, nd.F, nd.I, known.to, processed, queue, newT.graph);
      processed', queue' := processed, queue[..|queue| - 1];
    } else {
      queue' := ProcessNew(nd, known, newT, processed, queue);
      processed' := processed + {n};
    }
  }

  /** Processing a number popped off the queue: its subset is grouped and its successors added. */
  method ProcessNew(nd: Ndfa.NDFA, known: Mapping, newT: DetTransitions, processed: set<nat>, queue: seq<nat>)
    returns (queue': seq<nat>)
    requires queue != [] && queue[|queue| - 1] !in processed && known.Valid()
    requires Progress(nd.T.moves, nd.F, nd.I, known.to, processed, queue, newT.graph)
    modifies known, newT
    ensures known.Valid()
    ensures Progress(nd.T.moves, nd.F, nd.I, known.to, processed + {queue[|queue| - 1]}, queue', newT.graph)
  {
    var n := queue[|queue| - 1];
    var q0 := queue[..|queue| - 1];
    ghost var to0 := known.to;
    ghost var g0 := newT.graph;
    assert n < |known.to| && forall k | k in newT.graph :: k.0 != n by {
      PoppedFresh(nd.T.moves, nd.F, nd.I, known.to, processed, queue, newT.graph);
    }
    var origs := known.Unmap(n);
    var tr := Group(nd, origs.value.1);
    queue' := AddSuccessors(known, newT, nd.T.moves, nd.F, nd.I, n, tr, q0);
    ProgressStep(nd.T.moves, nd.F, nd.I, to0, known.to, processed, g0, newT.graph, queue, queue');
  }

  /** The number on top of the queue, when not processed, is a number with no transitions yet. */
  lemma PoppedFresh(t: set<Move>, finals: set<nat>, starts: set<nat>, to: seq<Key>, processed: set<nat>, queue: seq<nat>, g: Graph)
    requires queue != [] && queue[|queue| - 1] !in processed
    requires Progress(t, finals, starts, to, processed, queue, g)
    ensures queue[|queue| - 1] < |to| && forall k | k in g :: k.0 != queue[|queue| - 1]
  {
  }

  /** The loop invariant of `from_ndfa` survives skipping a processed number. */
  lemma ProgressSkip(t: set<Move>, finals: set<nat>, starts: set<nat>, to: seq<Key>, processed: set<nat>, queue: seq<nat>, g: Graph)
    requires queue != [] && queue[|queue| - 1] in processed && Progress(t, finals, starts, to, processed, queue, g)
    ensures Progress(t, finals, starts, to, processed, queue[..|queue| - 1], g)
  {
    assert queue == queue[..|queue| - 1] + [queue[|queue| - 1]];
    CoveredSkip(to, processed, queue[|queue| - 1], queue[..|queue| - 1]);
  }

  /** The loop invariant of `from_ndfa` survives processing `n`. */
  lemma ProgressStep(t: set<Move>, finals: set<nat>, starts: set<nat>, to0: seq<Key>, to: seq<Key>,
                     processed: set<nat>, g0: Graph, g: Graph, queue: seq<nat>, q: seq<nat>)
    requires queue != [] && queue[|queue| - 1] !in processed && queue[|queue| - 1] < |to0| && Distinct(to)
    requires Progress(t, finals, starts, to0, processed, queue, g0)
    requires AddedAll(t, finals, starts, queue[|queue| - 1], to0, to, g0, g, queue[..|queue| - 1], q)
    ensures Progress(t, finals, starts, to, processed + {queue[|queue| - 1]}, q, g)
  {
    var n, q0 := queue[|queue| - 1], queue[..|queue| - 1];
    assert queue == q0 + [n];
    BuiltStep(t, finals, starts, n, to0, to, processed, g0, g, q0, q);
    CoveredStep(t, finals, starts, n, to0, to, processed, g0, g, q0, q);
    ProcessedBound(t, finals, starts, to, processed + {n});
    assert to[0] == to[..|to0|][0];
  }

  /**
   * `DFA.from_ndfa(nd)`: the subset construction. Number 0 is the start subset; the
   * queue is a stack of numbers still to process; each processed number gets one
   * transition per symbol its subset moves on; the finals are the truthy keys.
   */
  method FromNdfa(nd: Ndfa.NDFA) returns (r: DetAutomata)
    ensures r.state == 0 && r.Valid()
    ensures forall w :: Det.Accepts(r.trans.graph, r.finals, w) <==> Nfas.Accepts(nd.Value(), w)
  {
    ghost var all := AllKeys(nd.T.moves, nd.F, nd.I);
    var known := new Mapping();
    var start := known.Map((Flag(|nd.I * nd.F| > 0), nd.I));
    var queue := [start];
    var processed: set<nat> := {};
    var newT := new DetTransitions(map[]);
    StartProgress(nd.T.moves, nd.F, nd.I, known.to, start);
    while queue != []
      invariant known.Valid()
      invariant Progress(nd.T.moves, nd.F, nd.I, known.to, processed, queue, newT.graph)
      decreases |all| - |processed|, |queue|
    {
      processed, queue := ProcessNext(nd, known, newT, processed, queue);
    }
    var newF := known.Finals();
    r := new DetAutomata(newT, newF);
    FinishedLanguage(nd.T.moves, nd.F, nd.I, known.to, processed, newT.graph, newF);
  }

  lemma StartProgress(t: set<Move>, finals: set<nat>, starts: set<nat>, to: seq<Key>, start: nat)
    requires to == [(Flag(|starts * finals| > 0), starts)] && start == 0
    ensures Progress(t, finals, starts, to, {}, [start], map[])
  {
    assert 0 in [start];
  }

  /** When the queue empties, the DFA accepts exactly the words of the NFA. */
  lemma FinishedLanguage(t: set<Move>, finals: set<nat>, starts: set<nat>, to: seq<Key>, processed: set<nat>, g: Graph, dfaFinals: set<nat>)
    requires Progress(t, finals, starts, to, processed, [], g)
    requires dfaFinals == set i: nat | i < |to| && Truthy(to[i].0)
    ensures forall w :: Det.Accepts(g, dfaFinals, w) <==> Nfas.Accepts(Nfa(starts, finals, t), w)
  {
    BuiltClosed(t, to, processed, g);
    forall w
      ensures Det.Accepts(g, dfaFinals, w) <==> Nfas.Accepts(Nfa(starts, finals, t), w)
    {
      SubsetLanguage(t, finals, starts, to, g, dfaFinals, w);
    }
  }
}
