/**
 * The table-filling matrix of `DFA.minify` (automata/dfa.py) as values: the seeded
 * matrix, one pass over its cells, the passes repeated until nothing changes, and the
 * equality sets read off the result. The loops that compute them are in module
 * DfaMinify; this module states what they compute and proves it: with the successors'
 * cell read where it lies, every 1 marks two states some word tells apart, and the 0s
 * left at the end relate exactly the states no word tells apart.
 */
module MinifyMatrix {
  import opened Outcomes
  import opened Det = DetAutomata

  /**
   * The matrix: row `i` holds the cells of state `i + 1` against the states `0..i`.
   * `true` stands for 1 (told apart), `false` for 0.
   */
  type Matrix = seq<seq<bool>>

  /** Row `i` has `i + 1` cells. */
  ghost predicate Triangle(m: Matrix) {
    forall i | 0 <= i < |m| :: |m[i]| == i + 1
  }

  /** The seeded matrix for the states `0..biggest`: 1 exactly where one of the two states is final. */
  function Seed(finals: set<nat>, biggest: nat): Matrix {
    seq(biggest, i requires 0 <= i => seq(i + 1, j => (i + 1 in finals) != (j in finals)))
  }

  /** Every transition of `g` stays among the states `0..b`. */
  ghost predicate Bounded(g: Graph, b: nat) {
    forall k | k in g :: k.0 <= b && g[k] <= b
  }

  /** `vocab` lists every symbol of `g`. */
  ghost predicate Covers(g: Graph, vocab: seq<char>) {
    forall k | k in g :: k.1 in vocab
  }

  /** `m'` has the shape of `m` and keeps each of its 1s. */
  ghost predicate Grows(m: Matrix, m': Matrix) {
    && |m'| == |m|
    && (forall i | 0 <= i < |m| :: |m'[i]| == |m[i]|)
    && (forall i, j | 0 <= i < |m| && 0 <= j < |m[i]| && m[i][j] :: m'[i][j])
  }

  /** `m` holds a 1 wherever one state of the cell is final and the other is not. */
  ghost predicate SeedMarked(finals: set<nat>, m: Matrix) {
    forall i, j | 0 <= i < |m| && 0 <= j < |m[i]| && (i + 1 in finals) != (j in finals) :: m[i][j]
  }

  lemma SeedShape(finals: set<nat>, biggest: nat)
    ensures |Seed(finals, biggest)| == biggest && Triangle(Seed(finals, biggest))
    ensures SeedMarked(finals, Seed(finals, biggest))
  {
  }

  lemma {:induction false} GrowsTrans(m: Matrix, m': Matrix, m'': Matrix)
    requires Grows(m, m') && Grows(m', m'')
    ensures Grows(m, m'')
  {
  }

  lemma SeedMarkedGrows(finals: set<nat>, m: Matrix, m': Matrix)
    requires SeedMarked(finals, m) && Grows(m, m')
    ensures SeedMarked(finals, m')
  {
  }

  /** The number of 0s in a row. */
  function CountZeros(row: seq<bool>): nat {
    if row == [] then 0 else (if row[0] then 0 else 1) + CountZeros(row[1..])
  }

  /** The number of 0s left in the matrix: what each pass with a change lowers. */
  function Zeros(m: Matrix): nat {
    if m == [] then 0 else CountZeros(m[0]) + Zeros(m[1..])
  }

  /** `m[x][y] = 1`. */
  function Mark(m: Matrix, x: nat, y: nat): (m': Matrix)
    requires x < |m| && y < |m[x]|
    ensures Grows(m, m') && m'[x][y]
    ensures forall i, j | 0 <= i < |m| && 0 <= j < |m[i]| && (i, j) != (x, y) :: m'[i][j] == m[i][j]
  {
    m[x := m[x][y := true]]
  }

  lemma {:induction false} CountZerosSet(row: seq<bool>, y: nat)
    requires y < |row| && !row[y]
    ensures CountZeros(row[y := true]) + 1 == CountZeros(row)
    decreases y
  {
    if y > 0 {
      assert row[y := true][1..] == row[1..][y - 1 := true];
      CountZerosSet(row[1..], y - 1);
    } else {
      assert row[y := true][1..] == row[1..];
    }
  }

  /** Writing a 1 over a 0 leaves one 0 fewer. */
  lemma {:induction false} ZerosMark(m: Matrix, x: nat, y: nat)
    requires x < |m| && y < |m[x]| && !m[x][y]
    ensures Zeros(Mark(m, x, y)) + 1 == Zeros(m)
    decreases x
  {
    if x > 0 {
      assert Mark(m, x, y)[1..] == Mark(m[1..], x - 1, y);
      ZerosMark(m[1..], x - 1, y);
    } else {
      assert Mark(m, x, y)[1..] == m[1..];
      CountZerosSet(m[0], y);
    }
  }

  /** The cells of row `x` and of every row after it, row by row. */
  function CellsFrom(m: Matrix, x: nat): (cells: seq<(nat, nat)>)
    ensures forall k | 0 <= k < |cells| :: x <= cells[k].0 < |m| && cells[k].1 < |m[cells[k].0]|
    ensures forall i: nat, j: nat | x <= i < |m| && j < |m[i]| :: (i, j) in cells
    decreases |m| - x
  {
    if x >= |m| then []
    else
      var row := seq(|m[x]|, j requires 0 <= j < |m[x]| => (x, j));
      assert forall j: nat | j < |m[x]| :: row[j] == (x, j);
      row + CellsFrom(m, x + 1)
  }

  /** `tri_matr_it_gen(m)`: every cell `(x, y)` of the matrix, row by row, each row left to right. */
  function TriangleCells(m: Matrix): (cells: seq<(nat, nat)>)
    ensures forall k | 0 <= k < |cells| :: cells[k].0 < |m| && cells[k].1 < |m[cells[k].0]|
    ensures forall i: nat, j: nat | i < |m| && j < |m[i]| :: (i, j) in cells
  {
    CellsFrom(m, 0)
  }

  /** Every cell of the sequence is a cell of `m`. */
  ghost predicate CellsIn(m: Matrix, cells: seq<(nat, nat)>) {
    forall k | 0 <= k < |cells| :: cells[k].0 < |m| && cells[k].1 < |m[cells[k].0]|
  }

  /**
   * One symbol `c` of the inner loop of `minify` for the cell `(s1, s2)`, whose states are
   * `s1 + 1` and `s2`: Ok(true) when the cell is to get a 1 (one state has a transition on
   * `c` and the other has none, or their successors' cell holds 1), Ok(false) when `c`
   * tells nothing, and IndexError when the successors' row is past the matrix. As written
   * the successors' cell is read at row `x_tr + 1`; `corrected` reads row `x_tr - 1`,
   * where the cell of states `x_tr` and `y_tr` lies.
   */
  function SymbolVerdict(g: Graph, m: Matrix, s1: nat, s2: nat, c: char, corrected: bool): Result<bool, RuntimeError>
    requires Triangle(m)
  {
    var x, y := Next(g, s1 + 1, c), Next(g, s2, c);
    if x == -1 && y == -1 then Ok(false)
    else if x == -1 || y == -1 then Ok(true)
    else if x == y then Ok(false)
    else
      var hi, lo := if x > y then x else y, if x > y then y else x;
      var row := if corrected then hi - 1 else hi + 1;
      if row < |m| then Ok(m[row][lo]) else Err(IndexError)
  }

  /** The loop over the vocabulary for one cell: the first symbol that marks or fails decides; none gives Ok(false). */
  function CellVerdict(g: Graph, m: Matrix, s1: nat, s2: nat, vocab: seq<char>, corrected: bool): (r: Result<bool, RuntimeError>)
    requires Triangle(m)
    ensures r.Err? ==> r.error == IndexError
    decreases |vocab|
  {
    if vocab == [] then Ok(false)
    else
      match SymbolVerdict(g, m, s1, s2, vocab[0], corrected)
      case Err(e) => Err(e)
      case Ok(mark) => if mark then Ok(true) else CellVerdict(g, m, s1, s2, vocab[1..], corrected)
  }

  /**
   * The `for s1, s2 in tri_matr_it_gen(m)` pass from the cells `cells` on, with `changes`
   * so far: each 0 cell whose symbols mark it gets a 1 at once, so later cells of the same
   * pass see it. The result is the new matrix and whether anything changed, or the error.
   */
  function PassFrom(g: Graph, m: Matrix, cells: seq<(nat, nat)>, vocab: seq<char>, corrected: bool, changes: bool)
    : (r: Result<(Matrix, bool), RuntimeError>)
    requires Triangle(m) && CellsIn(m, cells)
    ensures r.Ok? ==> Triangle(r.value.0) && Grows(m, r.value.0)
    ensures r.Ok? ==> Zeros(r.value.0) <= Zeros(m) && (r.value.1 <==> changes || Zeros(r.value.0) < Zeros(m))
    ensures r.Ok? && !r.value.1 ==> r.value.0 == m
    ensures r.Err? ==> r.error == IndexError
    decreases |cells|
  {
    if cells == [] then Ok((m, changes))
    else
      var x, y := cells[0].0, cells[0].1;
      if m[x][y] then PassFrom(g, m, cells[1..], vocab, corrected, changes)
      else
        match CellVerdict(g, m, x, y, vocab, corrected)
        case Err(e) => Err(e)
        case Ok(mark) =>
          if mark then
            ZerosMark(m, x, y);
            var r := PassFrom(g, Mark(m, x, y), cells[1..], vocab, corrected, true);
            assert r.Ok? ==> Grows(m, r.value.0) by {
              if r.Ok? {
                GrowsTrans(m, Mark(m, x, y), r.value.0);
              }
            }
            r
          else PassFrom(g, m, cells[1..], vocab, corrected, changes)
  }

  /** `while changes`: passes over the whole matrix until one changes nothing; the matrix then, or the first error. */
  function Fix(g: Graph, m: Matrix, vocab: seq<char>, corrected: bool): (r: Result<Matrix, RuntimeError>)
    requires Triangle(m)
    ensures r.Err? ==> r.error == IndexError
    decreases Zeros(m)
  {
    var p := PassFrom(g, m, TriangleCells(m), vocab, corrected, false);
    if p.Err? then Err(p.error)
    else if p.value.1 then Fix(g, p.value.0, vocab, corrected)
    else Ok(m)
  }

  /** The result of the passes has the shape of the seed and keeps its 1s. */
  lemma {:induction false} FixGrows(g: Graph, m: Matrix, vocab: seq<char>, corrected: bool)
    requires Triangle(m) && Fix(g, m, vocab, corrected).Ok?
    ensures Triangle(Fix(g, m, vocab, corrected).value) && Grows(m, Fix(g, m, vocab, corrected).value)
    decreases Zeros(m)
  {
    var p := PassFrom(g, m, TriangleCells(m), vocab, corrected, false);
    if p.value.1 {
      FixGrows(g, p.value.0, vocab, corrected);
      GrowsTrans(m, p.value.0, Fix(g, m, vocab, corrected).value);
    }
  }

  /** What can be observed of state `s` after reading `w`: 0 dead, 1 alive and not final, 2 final. */
  function Observe(g: Graph, finals: set<nat>, s: int, w: string): nat {
    var q := Run(g, s, w);
    if q < 0 then 0 else if q as nat in finals then 2 else 1
  }

  /** Some word tells `p` and `q` apart. */
  ghost predicate Apart(g: Graph, finals: set<nat>, p: nat, q: nat) {
    exists w :: Observe(g, finals, p, w) != Observe(g, finals, q, w)
  }

  /** Every 1 of the matrix stands for two states some word tells apart. */
  ghost predicate Sound(g: Graph, finals: set<nat>, m: Matrix) {
    forall i, j | 0 <= i < |m| && 0 <= j < |m[i]| && m[i][j] :: Apart(g, finals, i + 1, j)
  }

  /** Reading `c` first, then `w`. */
  lemma ObserveCons(g: Graph, finals: set<nat>, s: int, c: char, w: string)
    ensures Observe(g, finals, s, [c] + w) == Observe(g, finals, Next(g, s, c), w)
  {
    assert ([c] + w)[0] == c && ([c] + w)[1..] == w;
  }

  /** The seed is sound: the empty word tells a final state from one that is not. */
  lemma SeedSound(g: Graph, finals: set<nat>, biggest: nat)
    ensures Sound(g, finals, Seed(finals, biggest))
  {
    var m := Seed(finals, biggest);
    forall i, j | 0 <= i < |m| && 0 <= j < |m[i]| && m[i][j]
      ensures Apart(g, finals, i + 1, j)
    {
      assert Observe(g, finals, i + 1, []) != Observe(g, finals, j, []);
    }
  }

  /** A symbol that marks a cell, with the successors' cell read where it lies, tells its two states apart. */
  lemma SymbolVerdictSound(g: Graph, finals: set<nat>, m: Matrix, s1: nat, s2: nat, c: char)
    requires Triangle(m) && Sound(g, finals, m)
    requires SymbolVerdict(g, m, s1, s2, c, true) == Ok(true)
    ensures Apart(g, finals, s1 + 1, s2)
  {
    var x, y := Next(g, s1 + 1, c), Next(g, s2, c);
    ObserveCons(g, finals, s1 + 1, c, []);
    ObserveCons(g, finals, s2, c, []);
    if x != -1 && y != -1 {
      var hi, lo := if x > y then x else y, if x > y then y else x;
      var w :| Observe(g, finals, hi, w) != Observe(g, finals, lo, w);
      ObserveCons(g, finals, s1 + 1, c, w);
      ObserveCons(g, finals, s2, c, w);
      assert Observe(g, finals, s1 + 1, [c] + w) != Observe(g, finals, s2, [c] + w);
    } else {
      assert [c] + [] == [c];
    }
  }

  /** A cell the vocabulary marks is marked by one of its symbols. */
  lemma {:induction false} CellVerdictMarks(g: Graph, m: Matrix, s1: nat, s2: nat, vocab: seq<char>, corrected: bool)
    requires Triangle(m) && CellVerdict(g, m, s1, s2, vocab, corrected) == Ok(true)
    ensures exists k :: 0 <= k < |vocab| && SymbolVerdict(g, m, s1, s2, vocab[k], corrected) == Ok(true)
    decreases |vocab|
  {
    if SymbolVerdict(g, m, s1, s2, vocab[0], corrected) != Ok(true) {
      CellVerdictMarks(g, m, s1, s2, vocab[1..], corrected);
      var k :| 0 <= k < |vocab[1..]| && SymbolVerdict(g, m, s1, s2, vocab[1..][k], corrected) == Ok(true);
      assert vocab[1..][k] == vocab[k + 1];
    }
  }

  /** A cell the vocabulary leaves at 0 is left at 0 by each of its symbols. */
  lemma {:induction false} CellVerdictKeeps(g: Graph, m: Matrix, s1: nat, s2: nat, vocab: seq<char>, corrected: bool)
    requires Triangle(m) && CellVerdict(g, m, s1, s2, vocab, corrected) == Ok(false)
    ensures forall k | 0 <= k < |vocab| :: SymbolVerdict(g, m, s1, s2, vocab[k], corrected) == Ok(false)
    decreases |vocab|
  {
    if vocab != [] {
      CellVerdictKeeps(g, m, s1, s2, vocab[1..], corrected);
      forall k | 1 <= k < |vocab|
        ensures SymbolVerdict(g, m, s1, s2, vocab[k], corrected) == Ok(false)
      {
        assert vocab[k] == vocab[1..][k - 1];
      }
    }
  }

  /** With the successors' cell read where it lies and every state within the matrix, no symbol fails. */
  lemma SymbolVerdictOk(g: Graph, m: Matrix, s1: nat, s2: nat, c: char)
    requires Triangle(m) && Bounded(g, |m|)
    ensures SymbolVerdict(g, m, s1, s2, c, true).Ok?
  {
  }

  /** With the successors' cell read where it lies and every state within the matrix, no cell fails. */
  lemma {:induction false} CellVerdictOk(g: Graph, m: Matrix, s1: nat, s2: nat, vocab: seq<char>)
    requires Triangle(m) && Bounded(g, |m|)
    ensures CellVerdict(g, m, s1, s2, vocab, true).Ok?
    decreases |vocab|
  {
    if vocab != [] {
      SymbolVerdictOk(g, m, s1, s2, vocab[0]);
      CellVerdictOk(g, m, s1, s2, vocab[1..]);
    }
  }

  /** A pass with the corrected lookup never fails and keeps the matrix sound. */
  lemma {:induction false} PassSound(g: Graph, finals: set<nat>, m: Matrix, cells: seq<(nat, nat)>, vocab: seq<char>, changes: bool)
    requires Triangle(m) && CellsIn(m, cells) && Bounded(g, |m|) && Sound(g, finals, m)
    ensures PassFrom(g, m, cells, vocab, true, changes).Ok?
    ensures Sound(g, finals, PassFrom(g, m, cells, vocab, true, changes).value.0)
    decreases |cells|
  {
    if cells != [] {
      var x, y := cells[0].0, cells[0].1;
      if !m[x][y] {
        CellVerdictOk(g, m, x, y, vocab);
        if CellVerdict(g, m, x, y, vocab, true).value {
          CellVerdictMarks(g, m, x, y, vocab, true);
          var k :| 0 <= k < |vocab| && SymbolVerdict(g, m, x, y, vocab[k], true) == Ok(true);
          SymbolVerdictSound(g, finals, m, x, y, vocab[k]);
          PassSound(g, finals, Mark(m, x, y), cells[1..], vocab, true);
        } else {
          PassSound(g, finals, m, cells[1..], vocab, changes);
        }
      } else {
        PassSound(g, finals, m, cells[1..], vocab, changes);
      }
    }
  }

  /** The passes with the corrected lookup never fail and keep the matrix sound. */
  lemma {:induction false} FixSound(g: Graph, finals: set<nat>, m: Matrix, vocab: seq<char>)
    requires Triangle(m) && Bounded(g, |m|) && Sound(g, finals, m)
    ensures Fix(g, m, vocab, true).Ok? && Sound(g, finals, Fix(g, m, vocab, true).value)
    decreases Zeros(m)
  {
    PassSound(g, finals, m, TriangleCells(m), vocab, false);
    var p := PassFrom(g, m, TriangleCells(m), vocab, true, false);
    if p.value.1 {
      FixSound(g, finals, p.value.0, vocab);
    }
  }

  /** Every 0 cell of the matrix is left at 0 by every symbol of the vocabulary. */
  ghost predicate Stable(g: Graph, m: Matrix, vocab: seq<char>, corrected: bool)
    requires Triangle(m)
  {
    forall i, j {:trigger CellVerdict(g, m, i, j, vocab, corrected)} | 0 <= j <= i < |m| && !m[i][j] :: CellVerdict(g, m, i, j, vocab, corrected) == Ok(false)
  }

  /** A pass that changes nothing has found every 0 cell it visited left at 0 by the vocabulary. */
  lemma {:induction false} PassStable(g: Graph, m: Matrix, cells: seq<(nat, nat)>, vocab: seq<char>, corrected: bool, changes: bool)
    requires Triangle(m) && CellsIn(m, cells)
    requires PassFrom(g, m, cells, vocab, corrected, changes) == Ok((m, false))
    ensures forall x, y | (x, y) in cells && !m[x][y] :: CellVerdict(g, m, x, y, vocab, corrected) == Ok(false)
    decreases |cells|
  {
    if cells != [] {
      var x, y := cells[0].0, cells[0].1;
      if !m[x][y] {
        var v := CellVerdict(g, m, x, y, vocab, corrected);
        if v == Ok(true) {
          ZerosMark(m, x, y);
          assert false;
        }
      }
      PassStable(g, m, cells[1..], vocab, corrected, changes);
      assert cells == [cells[0]] + cells[1..];
    }
  }

  /** The passes stop at a matrix on which a further pass changes nothing. */
  lemma {:induction false} FixStable(g: Graph, m: Matrix, vocab: seq<char>, corrected: bool)
    requires Triangle(m) && Fix(g, m, vocab, corrected).Ok?
    ensures Triangle(Fix(g, m, vocab, corrected).value)
    ensures Stable(g, Fix(g, m, vocab, corrected).value, vocab, corrected)
    decreases Zeros(m)
  {
    var p := PassFrom(g, m, TriangleCells(m), vocab, corrected, false);
    if p.value.1 {
      FixStable(g, p.value.0, vocab, corrected);
    } else {
      PassStable(g, m, TriangleCells(m), vocab, corrected, false);
    }
  }

  /** States `p` and `q` are not told apart by the matrix: equal, or their cell holds 0. */
  ghost predicate Same(m: Matrix, p: nat, q: nat) {
    || p == q
    || (q < p <= |m| && q < |m[p - 1]| && !m[p - 1][q])
    || (p < q <= |m| && p < |m[q - 1]| && !m[q - 1][p])
  }

  /** A symbol that leaves a 0 cell at 0 moves its two states alike: both die, or both move to states the matrix does not tell apart. */
  lemma SymbolKeepsSame(g: Graph, m: Matrix, s1: nat, s2: nat, c: char)
    requires Triangle(m) && Bounded(g, |m|) && s1 < |m|
    requires SymbolVerdict(g, m, s1, s2, c, true) == Ok(false)
    ensures (Next(g, s1 + 1, c) == -1) == (Next(g, s2, c) == -1)
    ensures Next(g, s1 + 1, c) != -1 ==> Same(m, Next(g, s1 + 1, c) as nat, Next(g, s2, c) as nat)
  {
  }

  /** A symbol no transition uses kills every state. */
  lemma OffVocabulary(g: Graph, vocab: seq<char>, s: int, c: char)
    requires Covers(g, vocab) && c !in vocab
    ensures Next(g, s, c) == -1
  {
  }

  /** A 0 cell the vocabulary leaves at 0 moves its two states alike on every symbol. */
  lemma CellStep(g: Graph, m: Matrix, vocab: seq<char>, s1: nat, s2: nat, c: char)
    requires Triangle(m) && Bounded(g, |m|) && Covers(g, vocab) && s1 < |m|
    requires CellVerdict(g, m, s1, s2, vocab, true) == Ok(false)
    ensures (Next(g, s1 + 1, c) == -1) == (Next(g, s2, c) == -1)
    ensures Next(g, s1 + 1, c) != -1 ==> Same(m, Next(g, s1 + 1, c) as nat, Next(g, s2, c) as nat)
  {
    if c in vocab {
      var k :| 0 <= k < |vocab| && vocab[k] == c;
      CellVerdictKeeps(g, m, s1, s2, vocab, true);
      SymbolKeepsSame(g, m, s1, s2, c);
    } else {
      OffVocabulary(g, vocab, s1 + 1, c);
      OffVocabulary(g, vocab, s2, c);
    }
  }

  /** On a stable matrix, two states it does not tell apart move alike on every symbol. */
  lemma SameStep(g: Graph, m: Matrix, vocab: seq<char>, p: nat, q: nat, c: char)
    requires Triangle(m) && Bounded(g, |m|) && Covers(g, vocab) && Stable(g, m, vocab, true)
    requires p <= |m| && q <= |m| && Same(m, p, q)
    ensures (Next(g, p, c) == -1) == (Next(g, q, c) == -1)
    ensures Next(g, p, c) != -1 ==> Same(m, Next(g, p, c) as nat, Next(g, q, c) as nat)
  {
    if p > q {
      assert CellVerdict(g, m, p - 1, q, vocab, true) == Ok(false);
      CellStep(g, m, vocab, p - 1, q, c);
    } else if q > p {
      assert CellVerdict(g, m, q - 1, p, vocab, true) == Ok(false);
      CellStep(g, m, vocab, q - 1, p, c);
    }
  }

  /**
   * On a stable matrix whose 1s include the seed's, two states it does not tell apart are
   * observed alike after every word.
   */
  lemma {:induction false} SameObserved(g: Graph, finals: set<nat>, m: Matrix, vocab: seq<char>, p: nat, q: nat, w: string)
    requires Triangle(m) && Bounded(g, |m|) && Covers(g, vocab)
    requires Stable(g, m, vocab, true) && SeedMarked(finals, m)
    requires p <= |m| && q <= |m| && Same(m, p, q)
    ensures Observe(g, finals, p, w) == Observe(g, finals, q, w)
    decreases |w|
  {
    if w == [] {
      assert Observe(g, finals, p, w) == if p in finals then 2 else 1;
      assert Observe(g, finals, q, w) == if q in finals then 2 else 1;
    } else {
      var c := w[0];
      ObserveCons(g, finals, p, c, w[1..]);
      ObserveCons(g, finals, q, c, w[1..]);
      assert [c] + w[1..] == w;
      SameStep(g, m, vocab, p, q, c);
      if Next(g, p, c) != -1 {
        SameObserved(g, finals, m, vocab, Next(g, p, c) as nat, Next(g, q, c) as nat, w[1..]);
      } else {
        RunDead(g, w[1..]);
      }
    }
  }

  /** The matrix relates states exactly as words do. */
  ghost predicate Exact(g: Graph, finals: set<nat>, m: Matrix) {
    forall p: nat, q: nat | p <= |m| && q <= |m| :: Same(m, p, q) <==> !Apart(g, finals, p, q)
  }

  /** Not being told apart by the matrix is an equivalence on the states `0..|m|`. */
  ghost predicate Equivalence(m: Matrix) {
    forall p: nat, q: nat, r: nat | p <= |m| && q <= |m| && r <= |m| && Same(m, p, q) && Same(m, q, r) :: Same(m, p, r)
  }

  /** Exactness makes the matrix's relation an equivalence. */
  lemma ExactEquivalence(g: Graph, finals: set<nat>, m: Matrix)
    requires Exact(g, finals, m)
    ensures Equivalence(m)
  {
    forall p: nat, q: nat, r: nat | p <= |m| && q <= |m| && r <= |m| && Same(m, p, q) && Same(m, q, r)
      ensures Same(m, p, r)
    {
    }
  }

  /** A sound, stable matrix whose 1s include the seed's relates states exactly as words do. */
  lemma MatrixExact(g: Graph, finals: set<nat>, m: Matrix, vocab: seq<char>)
    requires Triangle(m) && Bounded(g, |m|) && Covers(g, vocab)
    requires Stable(g, m, vocab, true) && SeedMarked(finals, m) && Sound(g, finals, m)
    ensures Exact(g, finals, m)
  {
    forall p: nat, q: nat | p <= |m| && q <= |m|
      ensures Same(m, p, q) <==> !Apart(g, finals, p, q)
    {
      if Same(m, p, q) {
        forall w
          ensures Observe(g, finals, p, w) == Observe(g, finals, q, w)
        {
          SameObserved(g, finals, m, vocab, p, q, w);
        }
      } else if p > q {
        assert m[p - 1][q];
      } else {
        assert m[q - 1][p];
        var w :| Observe(g, finals, q - 1 + 1, w) != Observe(g, finals, p, w);
        assert Observe(g, finals, p, w) != Observe(g, finals, q, w);
      }
    }
  }

  /**
   * With the corrected lookup, the passes started from the seed end on a matrix whose 0s
   * relate exactly the states no word tells apart.
   */
  lemma FixExact(g: Graph, finals: set<nat>, biggest: nat, vocab: seq<char>)
    requires Bounded(g, biggest) && Covers(g, vocab)
    ensures Fix(g, Seed(finals, biggest), vocab, true).Ok?
    ensures |Fix(g, Seed(finals, biggest), vocab, true).value| == biggest
    ensures Triangle(Fix(g, Seed(finals, biggest), vocab, true).value)
    ensures Exact(g, finals, Fix(g, Seed(finals, biggest), vocab, true).value)
  {
    var seed := Seed(finals, biggest);
    SeedShape(finals, biggest);
    SeedSound(g, finals, biggest);
    FixSound(g, finals, seed, vocab);
    var m := Fix(g, seed, vocab, true).value;
    FixGrows(g, seed, vocab, true);
    FixStable(g, seed, vocab, true);
    SeedMarkedGrows(finals, seed, m);
    MatrixExact(g, finals, m, vocab);
  }

  /**
   * `equality_set(viewed, m, state)` as a value: `state`, and for every `s` from `state`
   * on whose cell against `state` holds 0, the equality set of `s + 1`.
   */
  function EqSet(m: Matrix, state: nat): set<nat>
    requires Triangle(m) && state <= |m|
    decreases |m| - state, 1
  {
    {state} + EqSetFrom(m, state, state)
  }

  /** The part of `EqSet(m, state)` the loop adds from `s` on. */
  function EqSetFrom(m: Matrix, state: nat, s: nat): set<nat>
    requires Triangle(m) && state <= s <= |m|
    decreases |m| - state, 0, |m| - s
  {
    if s == |m| then {}
    else (if !m[s][state] then EqSet(m, s + 1) else {}) + EqSetFrom(m, state, s + 1)
  }

  /** An equality set holds its state and only states from it up to `|m|`. */
  lemma {:induction false} EqSetBounds(m: Matrix, state: nat)
    requires Triangle(m) && state <= |m|
    ensures state in EqSet(m, state)
    ensures forall t | t in EqSet(m, state) :: state <= t <= |m|
    decreases |m| - state, 1
  {
    EqSetFromBounds(m, state, state);
  }

  lemma {:induction false} EqSetFromBounds(m: Matrix, state: nat, s: nat)
    requires Triangle(m) && state <= s <= |m|
    ensures forall t | t in EqSetFrom(m, state, s) :: s < t <= |m|
    decreases |m| - state, 0, |m| - s
  {
    if s < |m| {
      if !m[s][state] {
        EqSetBounds(m, s + 1);
      }
      EqSetFromBounds(m, state, s + 1);
    }
  }

  /** The states from `state` up to `|m|` that the matrix does not tell from `state`. */
  ghost function ClassFrom(m: Matrix, state: nat, s: nat): set<nat> {
    set t | s < t <= |m| && Same(m, state, t)
  }

  /** On an equivalence, the equality set of `state` is every state from it on that the matrix does not tell from it. */
  lemma {:induction false} EqSetClass(m: Matrix, state: nat)
    requires Triangle(m) && state <= |m| && Equivalence(m)
    ensures EqSet(m, state) == {state} + ClassFrom(m, state, state)
    decreases |m| - state, 1
  {
    EqSetFromClass(m, state, state);
  }

  lemma {:induction false} EqSetFromClass(m: Matrix, state: nat, s: nat)
    requires Triangle(m) && state <= s <= |m| && Equivalence(m)
    ensures EqSetFrom(m, state, s) == ClassFrom(m, state, s)
    decreases |m| - state, 0, |m| - s
  {
    if s < |m| {
      EqSetFromClass(m, state, s + 1);
      if !m[s][state] {
        EqSetClass(m, s + 1);
        forall t | t in ClassFrom(m, s + 1, s + 1)
          ensures t in ClassFrom(m, state, s)
        {
          assert Same(m, state, s + 1);
        }
        assert Same(m, state, s + 1);
      }
      assert ClassFrom(m, state, s) == (if Same(m, state, s + 1) then {s + 1} else {}) + ClassFrom(m, state, s + 1);
    }
  }
}
