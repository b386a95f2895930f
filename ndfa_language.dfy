/**
 * What the automata built by the combinators of automata/ndfa.py accept. Each
 * combinator builds an automaton for the matching regular operation: one character,
 * union, concatenation and Kleene closure.
 */
module NdfaLanguage {
  import opened Nfas
  import opened Ndfa

  /** Zero or more words of the automaton's language, one after the other. */
  ghost predicate StarOf(a: Nfa, w: string)
    decreases |w|
  {
    w == [] || exists k :: 1 <= k <= |w| && Accepts(a, w[..k]) && StarOf(a, w[k..])
  }

  /** Every transition of an automaton stays below its size. */
  lemma MovesBelow(a: Nfa)
    ensures forall m | m in a.moves :: m.origin < Size(a) && m.end < Size(a)
  {
    forall m | m in a.moves
      ensures m.origin < Size(a) && m.end < Size(a)
    {
      assert m.origin in Origins(a.moves) && m.end in Ends(a.moves);
    }
  }

  /** Every transition of an automaton shifted by `n` stays at or above `n`. */
  lemma MovesAbove(a: Nfa, n: nat)
    ensures forall m | m in Shift(a, n).moves :: m.origin >= n && m.end >= n
  {
    ShiftAbove(a, n);
    forall m | m in Shift(a, n).moves
      ensures m.origin >= n && m.end >= n
    {
      assert m.origin in Origins(Shift(a, n).moves) && m.end in Ends(Shift(a, n).moves);
    }
  }

  /** A path that starts at or above `n` never leaves the part of `t` that lives there. */
  lemma {:induction false} StayAbove(t: set<Move>, t2: set<Move>, n: nat, p: nat, w: string, q: nat)
    requires forall m | m in t && m.origin >= n :: m in t2 && m.end >= n
    requires p >= n && Path(t, p, w, q)
    ensures Path(t2, p, w, q) && q >= n
    decreases |w|
  {
    if w != [] {
      var e: nat :| Move(p, w[0], e) in t && Path(t, e, w[1..], q);
      StayAbove(t, t2, n, e, w[1..], q);
    }
  }

  /** A path that starts below `n`, in a table whose moves from below `n` stay below, never leaves the part of `t` below `n`. */
  lemma {:induction false} StayBelow(t: set<Move>, t1: set<Move>, n: nat, p: nat, w: string, q: nat)
    requires forall m | m in t && m.origin < n :: m in t1 && m.end < n
    requires p < n && Path(t, p, w, q)
    ensures Path(t1, p, w, q) && q < n
    decreases |w|
  {
    if w != [] {
      var e: nat :| Move(p, w[0], e) in t && Path(t, e, w[1..], q);
      StayBelow(t, t1, n, e, w[1..], q);
    }
  }

  /**
   * A path from below `n` to `n` or above crosses once: it runs in `t1` up to some `o`,
   * takes one move `o -w[k]-> s` with `s >= n`, then goes on in `t`.
   */
  lemma {:induction false} Cross(t: set<Move>, t1: set<Move>, n: nat, p: nat, w: string, q: nat)
    requires forall m | m in t && m.origin < n && m.end < n :: m in t1
    requires p < n <= q && Path(t, p, w, q)
    ensures exists k, o: nat, s: nat :: 0 <= k < |w| && o < n <= s && Path(t1, p, w[..k], o)
              && Move(o, w[k], s) in t && Path(t, s, w[k + 1..], q)
    decreases |w|
  {
    var e: nat :| Move(p, w[0], e) in t && Path(t, e, w[1..], q);
    if e >= n {
      assert Path(t1, p, w[..0], p);
      assert w[1..] == w[0 + 1..];
    } else {
      Cross(t, t1, n, e, w[1..], q);
      var k, o: nat, s: nat :| 0 <= k < |w[1..]| && o < n <= s && Path(t1, e, w[1..][..k], o)
                              && Move(o, w[1..][k], s) in t && Path(t, s, w[1..][k + 1..], q);
      assert w[..k + 1][0] == w[0] && w[..k + 1][1..] == w[1..][..k];
      assert Move(p, w[0], e) in t1;
      assert Path(t1, p, w[..k + 1], o);
      assert w[1..][k] == w[k + 1] && w[1..][k + 1..] == w[k + 2..];
    }
  }

  /** `by_value(s)` accepts the one-character word `s` and nothing else. */
  lemma ValueLang(c: char, w: string)
    ensures Accepts(ByValueSpec(c), w) <==> w == [c]
  {
    var a := ByValueSpec(c);
    if w == [c] {
      PathOne(a.moves, 0, c, 1);
    }
    if Accepts(a, w) {
      var p, q :| p in a.starts && q in a.finals && Path(a.moves, p, w, q);
      assert w != [];
      var e: nat :| Move(p, w[0], e) in a.moves && Path(a.moves, e, w[1..], q);
      assert e == 1;
      if w[1..] != [] {
        assert false;
      }
      assert w == [w[0]] + w[1..];
    }
  }

  /** `by_decision(m1, m2)` accepts the words of either automaton. */
  lemma DecisionLang(a: Nfa, b: Nfa, w: string)
    ensures Accepts(ByDecisionSpec(a, b), w) <==> Accepts(a, w) || Accepts(b, w)
  {
    var n := Size(a);
    var b' := Shift(b, n);
    var d := ByDecisionSpec(a, b);
    MovesBelow(a);
    MovesAbove(b, n);
    ShiftAbove(b, n);
    ShiftAccepts(b, n, w);
    if Accepts(d, w) {
      var p, q :| p in d.starts && q in d.finals && Path(d.moves, p, w, q);
      if p >= n {
        StayAbove(d.moves, b'.moves, n, p, w, q);
        assert p in b'.starts && q in b'.finals;
      } else {
        StayBelow(d.moves, a.moves, n, p, w, q);
        assert p in a.starts && q in a.finals;
      }
    }
    if Accepts(a, w) {
      var p, q :| p in a.starts && q in a.finals && Path(a.moves, p, w, q);
      PathMono(a.moves, d.moves, p, w, q);
      assert p in d.starts && q in d.finals;
    }
    if Accepts(b', w) {
      var p, q :| p in b'.starts && q in b'.finals && Path(b'.moves, p, w, q);
      PathMono(b'.moves, d.moves, p, w, q);
      assert p in d.starts && q in d.finals;
    }
  }

  /** The bridges of `by_concatenation` run from the left automaton into the starts of the right one. */
  lemma BridgeShape(a: Nfa, starts: set<nat>, m: Move)
    requires m in Bridges(a.moves, a.finals, starts)
    ensures m.end in starts && exists e :: e in a.finals && Move(m.origin, m.symbol, e) in a.moves
  {
    var x, s :| x in a.moves && x.end in a.finals && s in starts && m == Move(x.origin, x.symbol, s);
    assert Move(m.origin, m.symbol, x.end) == x;
  }

  /** The transitions of `by_concatenation`: those from the right part stay there; those inside the left part are the left automaton's. */
  lemma ConcatShape(a: Nfa, b: Nfa)
    ensures forall m | m in ByConcatenationSpec(a, b).moves && m.origin >= Size(a)
              :: m in Shift(b, Size(a)).moves && m.end >= Size(a)
    ensures forall m | m in ByConcatenationSpec(a, b).moves && m.origin < Size(a) && m.end < Size(a)
              :: m in a.moves
  {
    var n := Size(a);
    var b' := Shift(b, n);
    MovesBelow(a);
    MovesAbove(b, n);
    forall m | m in Bridges(a.moves, a.finals, b'.starts)
      ensures m.origin < n && m.end >= n
    {
      BridgeShape(a, b'.starts, m);
      ShiftAbove(b, n);
      var e :| e in a.finals && Move(m.origin, m.symbol, e) in a.moves;
    }
  }

  /** An accepting path of `by_concatenation` from a shifted start of `m2`: the empty word of `m1`, then a word of `m2`. */
  lemma ConcatSoundRight(a: Nfa, b: Nfa, w: string, p: nat, q: nat)
    requires var c := ByConcatenationSpec(a, b); p in c.starts && q in c.finals && Path(c.moves, p, w, q)
    requires p >= Size(a)
    ensures Accepts(a, []) && Accepts(b, w)
  {
    var n := Size(a);
    var b' := Shift(b, n);
    var c := ByConcatenationSpec(a, b);
    ConcatShape(a, b);
    StayAbove(c.moves, b'.moves, n, p, w, q);
    assert p !in a.starts;
    assert a.starts * a.finals != {} && p in b'.starts;
    AcceptsEmpty(a);
    ShiftAccepts(b, n, w);
  }

  /** A transition of `by_concatenation` from the left part into the right part is a bridge. */
  lemma CrossingBridge(a: Nfa, b: Nfa, o: nat, c: char, s: nat)
    requires Move(o, c, s) in ByConcatenationSpec(a, b).moves && o < Size(a) <= s
    ensures s in Shift(b, Size(a)).starts && exists f :: f in a.finals && Move(o, c, f) in a.moves
  {
    var n := Size(a);
    MovesBelow(a);
    MovesAbove(b, n);
    assert Move(o, c, s) in Bridges(a.moves, a.finals, Shift(b, n).starts);
    BridgeShape(a, Shift(b, n).starts, Move(o, c, s));
  }

  /** A path from a start to `o`, then one move into a final: an accepted word. */
  lemma AcceptedByLastMove(a: Nfa, p: nat, u: string, o: nat, c: char, f: nat)
    requires p in a.starts && f in a.finals && Path(a.moves, p, u, o) && Move(o, c, f) in a.moves
    ensures Accepts(a, u + [c])
  {
    PathOne(a.moves, o, c, f);
    PathAppend(a.moves, p, u, o, [c], f);
  }

  /** An accepting path of `by_concatenation` from a start of `m1` crosses a bridge after a word of `m1`. */
  lemma ConcatSoundCross(a: Nfa, b: Nfa, w: string, p: nat, q: nat)
    requires var c := ByConcatenationSpec(a, b); p in c.starts && q in c.finals && Path(c.moves, p, w, q)
    requires p < Size(a)
    ensures exists k :: 0 <= k <= |w| && Accepts(a, w[..k]) && Accepts(b, w[k..])
  {
    var n := Size(a);
    var b' := Shift(b, n);
    var c := ByConcatenationSpec(a, b);
    ConcatShape(a, b);
    ShiftAbove(b, n);
    assert q >= n;
    Cross(c.moves, a.moves, n, p, w, q);
    var k, o: nat, s: nat :| 0 <= k < |w| && o < n <= s && Path(a.moves, p, w[..k], o)
                            && Move(o, w[k], s) in c.moves && Path(c.moves, s, w[k + 1..], q);
    CrossingBridge(a, b, o, w[k], s);
    var f :| f in a.finals && Move(o, w[k], f) in a.moves;
    assert p in a.starts;
    AcceptedByLastMove(a, p, w[..k], o, w[k], f);
    PrefixSnoc(w, k);
    StayAbove(c.moves, b'.moves, n, s, w[k + 1..], q);
    assert Accepts(b', w[k + 1..]);
    ShiftAccepts(b, n, w[k + 1..]);
  }

  /** An accepting path of `by_concatenation` splits into a word of `m1` and a word of `m2`. */
  lemma ConcatSound(a: Nfa, b: Nfa, w: string)
    requires Accepts(ByConcatenationSpec(a, b), w)
    ensures exists k :: 0 <= k <= |w| && Accepts(a, w[..k]) && Accepts(b, w[k..])
  {
    var c := ByConcatenationSpec(a, b);
    var p, q :| p in c.starts && q in c.finals && Path(c.moves, p, w, q);
    if p >= Size(a) {
      ConcatSoundRight(a, b, w, p, q);
      assert w[..0] == [] && w[0..] == w;
    } else {
      ConcatSoundCross(a, b, w, p, q);
    }
  }

  /** A non-empty path of `m1` into a final state can end instead at any start of `m2`, over the last bridge. */
  lemma BridgePath(a: Nfa, b: Nfa, p: nat, u: string, f: nat, s: nat)
    requires |u| > 0 && Path(a.moves, p, u, f) && f in a.finals && s in b.starts
    ensures Path(ConcatShifted(a, b).moves, p, u, s)
  {
    var t := ConcatShifted(a, b).moves;
    var k := |u|;
    assert u == u[..k - 1] + [u[k - 1]];
    PathSplit(a.moves, p, u[..k - 1], [u[k - 1]], f);
    var o :| Path(a.moves, p, u[..k - 1], o) && Path(a.moves, o, [u[k - 1]], f);
    PathOne(a.moves, o, u[k - 1], f);
    var last := Move(o, u[k - 1], f);
    assert Move(last.origin, last.symbol, s) in Bridges(a.moves, a.finals, b.starts);
    PathMono(a.moves, t, p, u[..k - 1], o);
    PathOne(t, o, u[k - 1], s);
    PathAppend(t, p, u[..k - 1], o, [u[k - 1]], s);
  }

  /** Gluing an already shifted `m2` after `m1` accepts each word of `m1` followed by a word of `m2`. */
  lemma ConcatShiftedComplete(a: Nfa, b: Nfa, u: string, v: string)
    requires Accepts(a, u) && Accepts(b, v)
    ensures Accepts(ConcatShifted(a, b), u + v)
  {
    var c := ConcatShifted(a, b);
    var s, q :| s in b.starts && q in b.finals && Path(b.moves, s, v, q);
    PathMono(b.moves, c.moves, s, v, q);
    if |u| == 0 {
      AcceptsEmpty(a);
      assert u + v == v;
      assert s in c.starts && q in c.finals && Path(c.moves, s, u + v, q);
    } else {
      var p, f :| p in a.starts && f in a.finals && Path(a.moves, p, u, f);
      BridgePath(a, b, p, u, f, s);
      PathAppend(c.moves, p, u, s, v, q);
      assert p in c.starts && q in c.finals && Path(c.moves, p, u + v, q);
    }
  }

  /** A word of `m1` followed by a word of `m2` is accepted by `by_concatenation`. */
  lemma ConcatComplete(a: Nfa, b: Nfa, w: string, k: nat)
    requires k <= |w| && Accepts(a, w[..k]) && Accepts(b, w[k..])
    ensures Accepts(ByConcatenationSpec(a, b), w)
  {
    ShiftAccepts(b, Size(a), w[k..]);
    ConcatShiftedComplete(a, Shift(b, Size(a)), w[..k], w[k..]);
    assert w[..k] + w[k..] == w;
  }

  /** `by_concatenation(m1, m2)` accepts the words made of a word of `m1` followed by a word of `m2`. */
  lemma ConcatLang(a: Nfa, b: Nfa, w: string)
    ensures Accepts(ByConcatenationSpec(a, b), w)
        <==> exists k :: 0 <= k <= |w| && Accepts(a, w[..k]) && Accepts(b, w[k..])
  {
    if Accepts(ByConcatenationSpec(a, b), w) {
      ConcatSound(a, b, w);
    }
    if exists k :: 0 <= k <= |w| && Accepts(a, w[..k]) && Accepts(b, w[k..]) {
      var k :| 0 <= k <= |w| && Accepts(a, w[..k]) && Accepts(b, w[k..]);
      ConcatComplete(a, b, w, k);
    }
  }

  /** The transitions of `by_closure`, sorted by whether they leave or enter the hub `h = len(m)`. */
  lemma ClosureMove(a: Nfa, m: Move)
    requires m in ByClosureSpec(a).moves
    ensures m.origin < Size(a) && m.end < Size(a) ==> m in a.moves
    ensures m.origin == Size(a) && m.end < Size(a) ==>
              exists p :: p in a.starts && Move(p, m.symbol, m.end) in a.moves
    ensures m.origin < Size(a) && m.end == Size(a) ==>
              exists f :: f in a.finals && Move(m.origin, m.symbol, f) in a.moves
    ensures m.origin == Size(a) && m.end == Size(a) ==>
              exists p, f :: p in a.starts && f in a.finals && Move(p, m.symbol, f) in a.moves
    ensures m.origin <= Size(a) && m.end <= Size(a)
  {
    var h := Size(a);
    MovesBelow(a);
    var out := HubOut(a.moves, a.starts, h);
    var trans := a.moves + out;
    if m in a.moves {
    } else if m in out {
      var x :| x in a.moves && x.origin in a.starts && m == Move(h, x.symbol, x.end);
      assert Move(x.origin, m.symbol, m.end) == x;
    } else {
      var x :| x in trans && x.end in a.finals && m == Move(x.origin, x.symbol, h);
      if x in a.moves {
        assert Move(m.origin, m.symbol, x.end) == x;
      } else {
        var y :| y in a.moves && y.origin in a.starts && x == Move(h, y.symbol, y.end);
        assert Move(y.origin, m.symbol, y.end) == y;
      }
    }
  }

  /** A non-empty word of `m`, read from a start to a final, leads the closure from its hub back to its hub. */
  lemma {:induction false} Segment(a: Nfa, u: string, p: nat, f: nat)
    requires |u| >= 1 && p in a.starts && f in a.finals && Path(a.moves, p, u, f)
    ensures Path(ByClosureSpec(a).moves, Size(a), u, Size(a))
  {
    var h := Size(a);
    var c := ByClosureSpec(a);
    var trans := a.moves + HubOut(a.moves, a.starts, h);
    var e: nat :| Move(p, u[0], e) in a.moves && Path(a.moves, e, u[1..], f);
    var first := Move(p, u[0], e);
    assert Move(h, first.symbol, first.end) in HubOut(a.moves, a.starts, h);
    if u[1..] == [] {
      assert Move(h, u[0], e) in trans && e == f;
      var hubMove := Move(h, u[0], e);
      assert Move(hubMove.origin, hubMove.symbol, h) in HubIn(trans, a.finals, h);
      PathOne(c.moves, h, u[0], h);
      assert u == [u[0]];
    } else {
      var rest := u[1..];
      PrefixSnoc(rest, |rest| - 1);
      assert rest[..|rest|] == rest;
      PathSplit(a.moves, e, rest[..|rest| - 1], [rest[|rest| - 1]], f);
      var o :| Path(a.moves, e, rest[..|rest| - 1], o) && Path(a.moves, o, [rest[|rest| - 1]], f);
      PathOne(a.moves, o, rest[|rest| - 1], f);
      var last := Move(o, rest[|rest| - 1], f);
      assert Move(last.origin, last.symbol, h) in HubIn(trans, a.finals, h);
      PathMono(a.moves, c.moves, e, rest[..|rest| - 1], o);
      PathOne(c.moves, o, rest[|rest| - 1], h);
      PathAppend(c.moves, e, rest[..|rest| - 1], o, [rest[|rest| - 1]], h);
      assert Path(c.moves, e, rest, h);
      assert Move(h, u[0], e) in c.moves;
    }
  }

  /** Every word of the closure of `m`'s language leads the closure automaton from its hub back to its hub. */
  lemma {:induction false} ClosureComplete(a: Nfa, w: string)
    requires StarOf(a, w)
    ensures Path(ByClosureSpec(a).moves, Size(a), w, Size(a))
    decreases |w|
  {
    if w != [] {
      var k :| 1 <= k <= |w| && Accepts(a, w[..k]) && StarOf(a, w[k..]);
      var u, v := w[..k], w[k..];
      assert u + v == w;
      var p, f :| p in a.starts && f in a.finals && Path(a.moves, p, u, f);
      Segment(a, u, p, f);
      ClosureComplete(a, v);
      PathAppend(ByClosureSpec(a).moves, Size(a), u, Size(a), v, Size(a));
    }
  }

  /** From an old state, a path back to the hub first finishes a word of `m` in one of its finals. */
  lemma {:induction false} Return(a: Nfa, e: nat, x: string)
    requires e < Size(a) && Path(ByClosureSpec(a).moves, e, x, Size(a))
    ensures exists j, f :: 1 <= j <= |x| && f in a.finals && Path(a.moves, e, x[..j], f)
              && Path(ByClosureSpec(a).moves, Size(a), x[j..], Size(a))
    decreases |x|
  {
    var h := Size(a);
    var c := ByClosureSpec(a);
    var e2: nat :| Move(e, x[0], e2) in c.moves && Path(c.moves, e2, x[1..], h);
    ClosureMove(a, Move(e, x[0], e2));
    if e2 == h {
      var f :| f in a.finals && Move(e, x[0], f) in a.moves;
      PathOne(a.moves, e, x[0], f);
      assert x[..1] == [x[0]];
    } else {
      Return(a, e2, x[1..]);
      var j, f :| 1 <= j <= |x[1..]| && f in a.finals && Path(a.moves, e2, x[1..][..j], f)
                  && Path(c.moves, h, x[1..][j..], h);
      assert x[..j + 1][0] == x[0] && x[..j + 1][1..] == x[1..][..j];
      assert Path(a.moves, e, x[..j + 1], f);
      assert x[j + 1..] == x[1..][j..];
    }
  }

  /** Every path of the closure automaton from its hub back to its hub reads a word of the closure of `m`'s language. */
  lemma {:induction false} ClosureSound(a: Nfa, w: string)
    requires Path(ByClosureSpec(a).moves, Size(a), w, Size(a))
    ensures StarOf(a, w)
    decreases |w|
  {
    var h := Size(a);
    var c := ByClosureSpec(a);
    if w != [] {
      var e: nat :| Move(h, w[0], e) in c.moves && Path(c.moves, e, w[1..], h);
      ClosureMove(a, Move(h, w[0], e));
      if e == h {
        var p, f :| p in a.starts && f in a.finals && Move(p, w[0], f) in a.moves;
        PathOne(a.moves, p, w[0], f);
        assert w[..1] == [w[0]];
        ClosureSound(a, w[1..]);
      } else {
        var p :| p in a.starts && Move(p, w[0], e) in a.moves;
        Return(a, e, w[1..]);
        var j, f :| 1 <= j <= |w[1..]| && f in a.finals && Path(a.moves, e, w[1..][..j], f)
                    && Path(c.moves, h, w[1..][j..], h);
        assert w[..j + 1][0] == w[0] && w[..j + 1][1..] == w[1..][..j];
        assert Path(a.moves, p, w[..j + 1], f);
        assert w[j + 1..] == w[1..][j..];
        ClosureSound(a, w[j + 1..]);
      }
    }
  }

  /** `by_closure(m)` accepts exactly the words made of zero or more words of `m`. */
  lemma ClosureLang(a: Nfa, w: string)
    ensures Accepts(ByClosureSpec(a), w) <==> StarOf(a, w)
  {
    var c := ByClosureSpec(a);
    var h := Size(a);
    if Accepts(c, w) {
      var p, q :| p in c.starts && q in c.finals && Path(c.moves, p, w, q);
      ClosureSound(a, w);
    }
    if StarOf(a, w) {
      ClosureComplete(a, w);
      assert h in c.starts && h in c.finals;
    }
  }
}
