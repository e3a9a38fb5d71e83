/**
 * The values behind the Minesweeper player's knowledge base. A sentence's
 * value is a `Fact`: a set of cells and the number of those cells that are
 * mines. A fact is true of a mine layout when the layout puts exactly that
 * many mines among the cells (`Holds`). The operations of the player's
 * `add_knowledge` are written here as functions on facts and on whole
 * knowledge states; the classes in module Minesweeper are proved to compute
 * them. The soundness lemmas show that every step keeps a true knowledge
 * base true, so the player never takes a mine for a safe cell.
 */
module MineLogic {
  import opened Wrappers

  type Cell = (int, int)

  datatype Fact = Fact(cells: set<Cell>, count: int)

  /** `f` is true of the mine layout `mines`. */
  predicate Holds(f: Fact, mines: set<Cell>)
  {
    |f.cells * mines| == f.count
  }

  // ---------------------------------------------------------------------
  // Set cardinality facts

  lemma SubsetCard(a: set<Cell>, b: set<Cell>)
    requires a <= b
    ensures |b - a| == |b| - |a|
  {
    assert a - b == {};
    assert a * b == a;
    assert a + b == b;
  }

  /** Taking away a subset takes away its mines. */
  lemma DiffMines(a: set<Cell>, b: set<Cell>, mines: set<Cell>)
    requires b <= a
    ensures |(a - b) * mines| == |a * mines| - |b * mines|
  {
    assert (a - b) * mines == a * mines - b * mines;
    SubsetCard(b * mines, a * mines);
  }

  // ---------------------------------------------------------------------
  // Sentence.known_mines / known_safes

  /** `known_mines`: the whole cell set when every cell must be a mine and the count is not zero. */
  function KnownMinesOf(f: Fact): Option<set<Cell>>
  {
    if |f.cells| == f.count && f.count != 0 then Some(f.cells) else None
  }

  /** `known_safes`: the whole cell set when the count is zero. */
  function KnownSafesOf(f: Fact): Option<set<Cell>>
  {
    if f.count == 0 then Some(f.cells) else None
  }

  /** What `known_mines` reports of a true fact are mines. */
  lemma KnownMinesSound(f: Fact, mines: set<Cell>)
    requires Holds(f, mines)
    ensures KnownMinesOf(f).Some? ==> KnownMinesOf(f).value <= mines
  {
    if KnownMinesOf(f).Some? {
      SubsetCard(f.cells * mines, f.cells);
      assert f.cells - f.cells * mines == {};
    }
  }

  /** What `known_safes` reports of a true fact are not mines. */
  lemma KnownSafesSound(f: Fact, mines: set<Cell>)
    requires Holds(f, mines)
    ensures KnownSafesOf(f).Some? ==> KnownSafesOf(f).value * mines == {}
  {
  }

  // ---------------------------------------------------------------------
  // Sentence.mark_mine / mark_safe

  /** `mark_mine(c)`: drop `c` and lower the count when `c` is among the cells. */
  function MarkMineFact(f: Fact, c: Cell): Fact
  {
    if c in f.cells then Fact(f.cells - {c}, f.count - 1) else f
  }

  /** `mark_safe(c)`: drop `c`, keep the count. */
  function MarkSafeFact(f: Fact, c: Cell): Fact
  {
    Fact(f.cells - {c}, f.count)
  }

  /** Marking a real mine keeps a true fact true, and the mine leaves the fact. */
  lemma MarkMineKeepsTruth(f: Fact, c: Cell, mines: set<Cell>)
    requires Holds(f, mines) && c in mines
    ensures c !in MarkMineFact(f, c).cells
    ensures Holds(MarkMineFact(f, c), mines)
  {
    if c in f.cells {
      DiffMines(f.cells, {c}, mines);
      assert {c} * mines == {c};
    }
  }

  /** Marking a cell that is not a mine keeps a true fact true, and the cell leaves the fact. */
  lemma MarkSafeKeepsTruth(f: Fact, c: Cell, mines: set<Cell>)
    requires Holds(f, mines) && c !in mines
    ensures c !in MarkSafeFact(f, c).cells
    ensures Holds(MarkSafeFact(f, c), mines)
  {
    assert (f.cells - {c}) * mines == f.cells * mines;
  }

  /** Every cell of `s` marked safe in turn: the order does not matter. */
  function MarkSafesFact(f: Fact, s: set<Cell>): Fact
  {
    Fact(f.cells - s, f.count)
  }

  /** Every cell of `s` marked as a mine in turn: each one present lowers the count by one. */
  function MarkMinesFact(f: Fact, s: set<Cell>): Fact
  {
    Fact(f.cells - s, f.count - |f.cells * s|)
  }

  lemma MarkSafesKeepsTruth(f: Fact, s: set<Cell>, mines: set<Cell>)
    requires Holds(f, mines) && s * mines == {}
    ensures Holds(MarkSafesFact(f, s), mines)
  {
    forall x | x in f.cells * mines
      ensures x !in s
    {
      assert x !in s * mines;
    }
    assert (f.cells - s) * mines == f.cells * mines;
  }

  lemma MarkMinesKeepsTruth(f: Fact, s: set<Cell>, mines: set<Cell>)
    requires Holds(f, mines) && s <= mines
    ensures Holds(MarkMinesFact(f, s), mines)
  {
    DiffMines(f.cells, f.cells * s, mines);
    assert f.cells * s * mines == f.cells * s;
    assert f.cells - f.cells * s == f.cells - s;
  }

  /** Marking the cells of a set safe one at a time: one more cell extends the set. */
  lemma MarkSafesStep(f: Fact, done: set<Cell>, c: Cell)
    ensures MarkSafeFact(MarkSafesFact(f, done), c) == MarkSafesFact(f, done + {c})
  {
    assert f.cells - done - {c} == f.cells - (done + {c});
  }

  /** Marking the cells of a set as mines one at a time: one more cell extends the set. */
  lemma MarkMinesStep(f: Fact, done: set<Cell>, c: Cell)
    requires c !in done
    ensures MarkMineFact(MarkMinesFact(f, done), c) == MarkMinesFact(f, done + {c})
  {
    assert f.cells - done - {c} == f.cells - (done + {c});
    if c in f.cells {
      assert f.cells * (done + {c}) == f.cells * done + {c};
    } else {
      assert f.cells * (done + {c}) == f.cells * done;
    }
  }

  /** `for sentence in facts: for cell in s: sentence.mark_safe(cell)`. */
  function MarkSafesAll(fs: seq<Fact>, s: set<Cell>): (r: seq<Fact>)
    ensures |r| == |fs|
  {
    seq(|fs|, k requires 0 <= k < |fs| => MarkSafesFact(fs[k], s))
  }

  /** `for sentence in facts: for cell in s: sentence.mark_mine(cell)`. */
  function MarkMinesAll(fs: seq<Fact>, s: set<Cell>): (r: seq<Fact>)
    ensures |r| == |fs|
  {
    seq(|fs|, k requires 0 <= k < |fs| => MarkMinesFact(fs[k], s))
  }

  // ---------------------------------------------------------------------
  // Collecting known safes and mines over a list of sentences

  /** The cells the `known_safes` loop over `fs` adds to `safes`. */
  function SafesIn(fs: seq<Fact>): set<Cell>
  {
    if fs == [] then {}
    else SafesIn(fs[..|fs| - 1]) + (match KnownSafesOf(fs[|fs| - 1]) case Some(s) => s case None => {})
  }

  /** The cells the `known_mines` loop over `fs` adds to `mines`. */
  function MinesIn(fs: seq<Fact>): set<Cell>
  {
    if fs == [] then {}
    else MinesIn(fs[..|fs| - 1]) + (match KnownMinesOf(fs[|fs| - 1]) case Some(s) => s case None => {})
  }

  lemma SafesInStep(fs: seq<Fact>, i: nat, next: nat)
    requires next == i + 1 <= |fs|
    ensures SafesIn(fs[..next]) == SafesIn(fs[..i]) + (match KnownSafesOf(fs[i]) case Some(s) => s case None => {})
  {
    assert fs[..next][..i] == fs[..i];
  }

  lemma MinesInStep(fs: seq<Fact>, i: nat, next: nat)
    requires next == i + 1 <= |fs|
    ensures MinesIn(fs[..next]) == MinesIn(fs[..i]) + (match KnownMinesOf(fs[i]) case Some(s) => s case None => {})
  {
    assert fs[..next][..i] == fs[..i];
  }

  /** The `known_safes` loop collects exactly the cells of the facts whose count is zero. */
  lemma {:induction false} SafesInMembers(fs: seq<Fact>, c: Cell)
    ensures c in SafesIn(fs) <==> exists k :: 0 <= k < |fs| && fs[k].count == 0 && c in fs[k].cells
  {
    if fs != [] {
      var front := fs[..|fs| - 1];
      SafesInMembers(front, c);
      assert forall k :: 0 <= k < |front| ==> front[k] == fs[k];
    }
  }

  /** The `known_mines` loop collects exactly the cells of the facts `known_mines` reports. */
  lemma {:induction false} MinesInMembers(fs: seq<Fact>, c: Cell)
    ensures c in MinesIn(fs) <==> exists k :: 0 <= k < |fs| && KnownMinesOf(fs[k]).Some? && c in fs[k].cells
  {
    if fs != [] {
      var front := fs[..|fs| - 1];
      MinesInMembers(front, c);
      assert forall k :: 0 <= k < |front| ==> front[k] == fs[k];
    }
  }

  /** Every fact of `fs` is true of `mines`. */
  predicate AllHold(fs: seq<Fact>, mines: set<Cell>)
  {
    forall k :: 0 <= k < |fs| ==> Holds(fs[k], mines)
  }

  lemma SafesInSound(fs: seq<Fact>, mines: set<Cell>)
    requires AllHold(fs, mines)
    ensures SafesIn(fs) * mines == {}
  {
    forall c | c in SafesIn(fs)
      ensures c !in mines
    {
      SafesInMembers(fs, c);
      var k :| 0 <= k < |fs| && fs[k].count == 0 && c in fs[k].cells;
      assert c !in fs[k].cells * mines;
    }
  }

  lemma MinesInSound(fs: seq<Fact>, mines: set<Cell>)
    requires AllHold(fs, mines)
    ensures MinesIn(fs) <= mines
  {
    forall c | c in MinesIn(fs)
      ensures c in mines
    {
      MinesInMembers(fs, c);
      var k :| 0 <= k < |fs| && KnownMinesOf(fs[k]).Some? && c in fs[k].cells;
      KnownMinesSound(fs[k], mines);
    }
  }

  // ---------------------------------------------------------------------
  // Resolve

  /** The sentence left when the cells of `sub` are taken out of `sup`. */
  function Diff(sup: Fact, sub: Fact): Fact
  {
    Fact(sup.cells - sub.cells, sup.count - sub.count)
  }

  /** What one pass of `Resolve`'s inner loop adds for the pair (f1, f2). */
  function ResolvePair(f1: Fact, f2: Fact): seq<Fact>
  {
    if f1 == f2 then []
    else if f2.cells <= f1.cells then [Diff(f1, f2)]
    else if f1.cells <= f2.cells then [Diff(f2, f1)]
    else []
  }

  /** The inner loop of `Resolve` for `sentence1 = f1`, over the first `j` sentences. */
  function ResolveWith(f1: Fact, kb: seq<Fact>, j: nat): seq<Fact>
    requires j <= |kb|
  {
    if j == 0 then [] else ResolveWith(f1, kb, j - 1) + ResolvePair(f1, kb[j - 1])
  }

  lemma ResolveWithStep(f1: Fact, kb: seq<Fact>, j: nat, next: nat)
    requires next == j + 1 <= |kb|
    ensures ResolveWith(f1, kb, next) == ResolveWith(f1, kb, j) + ResolvePair(f1, kb[j])
  {
  }

  /** The outer loop of `Resolve` after its first `i` rounds. */
  function ResolveUpTo(kb: seq<Fact>, i: nat): seq<Fact>
    requires i <= |kb|
  {
    if i == 0 then [] else ResolveUpTo(kb, i - 1) + ResolveWith(kb[i - 1], kb, |kb|)
  }

  /** The list `Resolve(Knowledge)` returns, as values. */
  function ResolveFacts(kb: seq<Fact>): seq<Fact>
  {
    ResolveUpTo(kb, |kb|)
  }

  /** `sub`'s cells lie inside `sup`'s and the two differ: `Resolve` derives `Diff(sup, sub)`. */
  predicate Derivable(sup: Fact, sub: Fact)
  {
    sup != sub && sub.cells <= sup.cells
  }

  lemma {:induction false} ResolveWithSource(f1: Fact, kb: seq<Fact>, j: nat, f: Fact) returns (t: nat)
    requires j <= |kb| && f in ResolveWith(f1, kb, j)
    ensures t < j && f in ResolvePair(f1, kb[t])
  {
    if f in ResolveWith(f1, kb, j - 1) {
      t := ResolveWithSource(f1, kb, j - 1, f);
    } else {
      t := j - 1;
    }
  }

  lemma {:induction false} ResolveWithAll(f1: Fact, kb: seq<Fact>, j: nat, t: nat, f: Fact)
    requires t < j <= |kb| && f in ResolvePair(f1, kb[t])
    ensures f in ResolveWith(f1, kb, j)
  {
    if t < j - 1 {
      ResolveWithAll(f1, kb, j - 1, t, f);
    }
  }

  /** The pair of positions in `kb` whose inner-loop pass produced `f`. */
  lemma {:induction false} ResolveUpToSource(kb: seq<Fact>, i: nat, p: nat) returns (s: nat, q: nat)
    requires i <= |kb| && p < |ResolveUpTo(kb, i)|
    ensures s < i && q < |ResolveWith(kb[s], kb, |kb|)|
    ensures ResolveUpTo(kb, i)[p] == ResolveWith(kb[s], kb, |kb|)[q]
  {
    var front := ResolveUpTo(kb, i - 1);
    if p < |front| {
      s, q := ResolveUpToSource(kb, i - 1, p);
    } else {
      s, q := i - 1, p - |front|;
    }
  }

  lemma {:induction false} ResolveUpToAll(kb: seq<Fact>, i: nat, s: nat, t: nat, f: Fact)
    requires s < i <= |kb| && t < |kb| && f in ResolvePair(kb[s], kb[t])
    ensures f in ResolveUpTo(kb, i)
  {
    if s < i - 1 {
      ResolveUpToAll(kb, i - 1, s, t, f);
    } else {
      ResolveWithAll(kb[i - 1], kb, |kb|, t, f);
    }
  }

  /**
   * `Resolve` derives exactly the differences superset minus subset over
   * the ordered pairs of sentences that are unequal as values.
   */
  lemma ResolveMembership(kb: seq<Fact>, f: Fact)
    ensures f in ResolveFacts(kb) <==>
      exists s, t :: 0 <= s < |kb| && 0 <= t < |kb| && Derivable(kb[s], kb[t]) && f == Diff(kb[s], kb[t])
  {
    if f in ResolveFacts(kb) {
      var p :| 0 <= p < |ResolveFacts(kb)| && ResolveFacts(kb)[p] == f;
      var s, q := ResolveUpToSource(kb, |kb|, p);
      var t := ResolveWithSource(kb[s], kb, |kb|, f);
      if kb[t].cells <= kb[s].cells {
        assert Derivable(kb[s], kb[t]) && f == Diff(kb[s], kb[t]);
      } else {
        assert Derivable(kb[t], kb[s]) && f == Diff(kb[t], kb[s]);
      }
    }
    if exists s, t :: 0 <= s < |kb| && 0 <= t < |kb| && Derivable(kb[s], kb[t]) && f == Diff(kb[s], kb[t]) {
      var s, t :| 0 <= s < |kb| && 0 <= t < |kb| && Derivable(kb[s], kb[t]) && f == Diff(kb[s], kb[t]);
      assert f in ResolvePair(kb[s], kb[t]);
      ResolveUpToAll(kb, |kb|, s, t, f);
    }
  }

  /** Every derived sentence's cells lie inside the cells of some input sentence. */
  lemma ResolveWithinInputs(kb: seq<Fact>)
    ensures forall f :: f in ResolveFacts(kb) ==> exists s :: 0 <= s < |kb| && f.cells <= kb[s].cells
  {
    forall f | f in ResolveFacts(kb)
      ensures exists s :: 0 <= s < |kb| && f.cells <= kb[s].cells
    {
      ResolveMembership(kb, f);
      var s, t :| 0 <= s < |kb| && 0 <= t < |kb| && Derivable(kb[s], kb[t]) && f == Diff(kb[s], kb[t]);
      assert f.cells <= kb[s].cells;
    }
  }

  /** Derived sentences are true of every layout all the inputs are true of. */
  lemma ResolveSound(kb: seq<Fact>, mines: set<Cell>)
    requires AllHold(kb, mines)
    ensures AllHold(ResolveFacts(kb), mines)
  {
    var r := ResolveFacts(kb);
    forall k | 0 <= k < |r|
      ensures Holds(r[k], mines)
    {
      ResolveMembership(kb, r[k]);
      var s, t :| 0 <= s < |kb| && 0 <= t < |kb| && Derivable(kb[s], kb[t]) && r[k] == Diff(kb[s], kb[t]);
      DiffMines(kb[s].cells, kb[t].cells, mines);
    }
  }

  /** The inner loop adds at most one sentence per pass, and none on the pass that meets `f1` itself. */
  lemma {:induction false} ResolveWithLength(f1: Fact, kb: seq<Fact>, j: nat)
    requires j <= |kb|
    ensures |ResolveWith(f1, kb, j)| <= j
    ensures f1 in kb[..j] ==> |ResolveWith(f1, kb, j)| <= j - 1
  {
    if j > 0 {
      ResolveWithLength(f1, kb, j - 1);
      assert kb[..j] == kb[..j - 1] + [kb[j - 1]];
    }
  }

  lemma {:induction false} ResolveUpToLength(kb: seq<Fact>, i: nat)
    requires i <= |kb|
    ensures |ResolveUpTo(kb, i)| <= i * (|kb| - 1)
  {
    if i > 0 {
      ResolveUpToLength(kb, i - 1);
      ResolveWithLength(kb[i - 1], kb, |kb|);
      assert kb[..|kb|] == kb;
      assert (i - 1) * (|kb| - 1) + (|kb| - 1) == i * (|kb| - 1);
    }
  }

  /** Each sentence is paired with every other one once: at most n(n-1) results. */
  lemma ResolveLength(kb: seq<Fact>)
    ensures |ResolveFacts(kb)| <= |kb| * (|kb| - 1)
  {
    ResolveUpToLength(kb, |kb|);
  }

  // ---------------------------------------------------------------------
  // The player's knowledge state and add_knowledge

  /** The cells within one row and column of `cell`, other than `cell`, inside an h-by-w board. */
  function NeighbourCells(cell: Cell, height: int, width: int): (r: set<Cell>)
    ensures forall c :: c in r <==>
      && cell.0 - 1 <= c.0 <= cell.0 + 1 && cell.1 - 1 <= c.1 <= cell.1 + 1 && c != cell
      && 0 <= c.0 < height && 0 <= c.1 < width
  {
    set i, j | cell.0 - 1 <= i <= cell.0 + 1 && cell.1 - 1 <= j <= cell.1 + 1
      && (i, j) != cell && 0 <= i < height && 0 <= j < width :: (i, j)
  }

  /** A list of n cells holds at most n distinct cells. */
  lemma {:induction false} ListedCellsCard(q: seq<Cell>)
    ensures |set x | x in q| <= |q|
  {
    if q != [] {
      var front := q[..|q| - 1];
      ListedCellsCard(front);
      assert (set x | x in q) == (set x | x in front) + {q[|q| - 1]};
    }
  }

  /** A cell has at most eight neighbours on the board. */
  lemma NeighbourCellsAtMostEight(cell: Cell, height: int, width: int)
    ensures |NeighbourCells(cell, height, width)| <= 8
  {
    var (r, c) := cell;
    var ring := [(r - 1, c - 1), (r - 1, c), (r - 1, c + 1), (r, c - 1), (r, c + 1), (r + 1, c - 1), (r + 1, c), (r + 1, c + 1)];
    var n := NeighbourCells(cell, height, width);
    forall x | x in n
      ensures x in ring
    {
      var (a, b) := x;
      if a == r - 1 {
        assert x == ring[0] || x == ring[1] || x == ring[2];
      } else if a == r {
        assert x == ring[3] || x == ring[4];
      } else {
        assert x == ring[5] || x == ring[6] || x == ring[7];
      }
    }
    ListedCellsCard(ring);
    assert n <= set x | x in ring;
    SubsetCard(n, set x | x in ring);
  }

  /** The value of the player's four fields. */
  datatype Knowledge = Knowledge(moves: set<Cell>, mines: set<Cell>, safes: set<Cell>, kb: seq<Fact>)

  /** `mark_mine` of the player. */
  function MarkMineSpec(k: Knowledge, c: Cell): Knowledge
  {
    k.(mines := k.mines + {c}, kb := seq(|k.kb|, t requires 0 <= t < |k.kb| => MarkMineFact(k.kb[t], c)))
  }

  /** `mark_safe` of the player. */
  function MarkSafeSpec(k: Knowledge, c: Cell): Knowledge
  {
    k.(safes := k.safes + {c}, kb := seq(|k.kb|, t requires 0 <= t < |k.kb| => MarkSafeFact(k.kb[t], c)))
  }

  /** The sentence `add_knowledge` builds: neighbours on the board not yet played. */
  function NewFact(cell: Cell, count: int, moves: set<Cell>, height: int, width: int): Fact
  {
    Fact(NeighbourCells(cell, height, width) - moves, count)
  }

  /** Known safes, known mines and sentences after one round of conclusions. */
  datatype Conclusion = Conclusion(safes: set<Cell>, mines: set<Cell>, facts: seq<Fact>)

  /**
   * One round of `add_knowledge`'s conclusions over the sentences `fs`:
   * add their known safes, mark all safes off in them, add the known mines
   * of the result, and mark all mines off.
   */
  function Conclusions(safes: set<Cell>, mines: set<Cell>, fs: seq<Fact>): Conclusion
  {
    var safes' := safes + SafesIn(fs);
    var marked := MarkSafesAll(fs, safes');
    var mines' := mines + MinesIn(marked);
    Conclusion(safes', mines', MarkMinesAll(marked, mines'))
  }

  /**
   * `add_knowledge(cell, count)`: record the move and the safe cell, append
   * the new sentence, draw conclusions from the resolved sentences (which
   * are then dropped) and then from the knowledge base itself.
   */
  function AddKnowledgeSpec(k: Knowledge, cell: Cell, count: int, height: int, width: int): Knowledge
  {
    var moves := k.moves + {cell};
    var kb0 := k.kb + [NewFact(cell, count, moves, height, width)];
    var first := Conclusions(k.safes + {cell}, k.mines, ResolveFacts(kb0));
    var second := Conclusions(first.safes, first.mines, kb0);
    Knowledge(moves, second.mines, second.safes, second.facts)
  }

  /** No sentence of `k` mentions a cell known to be safe or a mine. */
  predicate Settled(k: Knowledge)
  {
    forall t :: 0 <= t < |k.kb| ==> k.kb[t].cells * (k.safes + k.mines) == {}
  }

  /**
   * After `add_knowledge` the cell is played and known safe, the knowledge
   * base has grown by exactly one sentence, the old sentences have only lost
   * the cells now known, the new one holds the unplayed neighbours less the
   * known cells, and no sentence mentions a known cell.
   */
  lemma AddKnowledgeShape(k: Knowledge, cell: Cell, count: int, height: int, width: int)
    ensures var k' := AddKnowledgeSpec(k, cell, count, height, width);
      && cell in k'.moves && cell in k'.safes
      && k'.moves == k.moves + {cell}
      && k.safes <= k'.safes && k.mines <= k'.mines
      && |k'.kb| == |k.kb| + 1
      && (forall t :: 0 <= t < |k.kb| ==> k'.kb[t].cells == k.kb[t].cells - (k'.safes + k'.mines))
      && k'.kb[|k.kb|].cells == NeighbourCells(cell, height, width) - k'.moves - (k'.safes + k'.mines)
      && Settled(k')
  {
    var moves := k.moves + {cell};
    var kb0 := k.kb + [NewFact(cell, count, moves, height, width)];
    var first := Conclusions(k.safes + {cell}, k.mines, ResolveFacts(kb0));
    var second := Conclusions(first.safes, first.mines, kb0);
    ConclusionsShape(k.safes + {cell}, k.mines, ResolveFacts(kb0));
    ConclusionsShape(first.safes, first.mines, kb0);
    var k' := Knowledge(moves, second.mines, second.safes, second.facts);
    assert k' == AddKnowledgeSpec(k, cell, count, height, width);
    var known := k'.safes + k'.mines;
    forall t | 0 <= t < |k'.kb|
      ensures k'.kb[t].cells == kb0[t].cells - known
      ensures k'.kb[t].cells * known == {}
    {
    }
    assert forall t :: 0 <= t < |k.kb| ==> kb0[t] == k.kb[t];
    assert kb0[|k.kb|].cells == NeighbourCells(cell, height, width) - moves;
  }

  /**
   * A round of conclusions only adds known cells, keeps the number of
   * sentences, and strips every known cell from each sentence.
   */
  lemma ConclusionsShape(safes: set<Cell>, mines: set<Cell>, fs: seq<Fact>)
    ensures var r := Conclusions(safes, mines, fs);
      && safes <= r.safes && mines <= r.mines && |r.facts| == |fs|
      && forall t :: 0 <= t < |fs| ==> r.facts[t].cells == fs[t].cells - (r.safes + r.mines)
  {
    var r := Conclusions(safes, mines, fs);
    forall t | 0 <= t < |fs|
      ensures r.facts[t].cells == fs[t].cells - (r.safes + r.mines)
    {
      assert r.facts[t] == MarkMinesFact(MarkSafesFact(fs[t], r.safes), r.mines);
    }
  }

  /**
   * A knowledge state that is true of the mine layout `mines`: played
   * cells are known safe, known safes are not mines, known mines are mines,
   * and every sentence is true.
   */
  predicate Sound(k: Knowledge, mines: set<Cell>)
  {
    && k.moves <= k.safes
    && k.safes * mines == {}
    && k.mines <= mines
    && AllHold(k.kb, mines)
  }

  lemma MarkSafesAllKeepsTruth(fs: seq<Fact>, s: set<Cell>, mines: set<Cell>)
    requires AllHold(fs, mines) && s * mines == {}
    ensures AllHold(MarkSafesAll(fs, s), mines)
  {
    forall t | 0 <= t < |fs|
      ensures Holds(MarkSafesAll(fs, s)[t], mines)
    {
      MarkSafesKeepsTruth(fs[t], s, mines);
    }
  }

  lemma MarkMinesAllKeepsTruth(fs: seq<Fact>, s: set<Cell>, mines: set<Cell>)
    requires AllHold(fs, mines) && s <= mines
    ensures AllHold(MarkMinesAll(fs, s), mines)
  {
    forall t | 0 <= t < |fs|
      ensures Holds(MarkMinesAll(fs, s)[t], mines)
    {
      MarkMinesKeepsTruth(fs[t], s, mines);
    }
  }

  /**
   * A round of conclusions from true sentences, starting from true known
   * safes and mines, records only true safes and mines and leaves the
   * sentences true.
   */
  lemma ConclusionsSound(safes: set<Cell>, known: set<Cell>, fs: seq<Fact>, mines: set<Cell>)
    requires safes * mines == {} && known <= mines && AllHold(fs, mines)
    ensures var c := Conclusions(safes, known, fs);
      c.safes * mines == {} && c.mines <= mines && AllHold(c.facts, mines)
  {
    SafesInSound(fs, mines);
    var safes' := safes + SafesIn(fs);
    MarkSafesAllKeepsTruth(fs, safes', mines);
    var marked := MarkSafesAll(fs, safes');
    MinesInSound(marked, mines);
    MarkMinesAllKeepsTruth(marked, known + MinesIn(marked), mines);
  }

  /**
   * When the player's knowledge is true of the real layout, the revealed
   * cell is not a mine and `count` is its number of neighbouring mines
   * (what the game's `nearby_mines` reports), the knowledge after
   * `add_knowledge` is still true: no mine is ever recorded as safe and no
   * safe cell as a mine.
   */
  lemma AddKnowledgeSound(k: Knowledge, cell: Cell, count: int, height: int, width: int, mines: set<Cell>)
    requires Sound(k, mines) && cell !in mines
    requires count == |NeighbourCells(cell, height, width) * mines|
    ensures Sound(AddKnowledgeSpec(k, cell, count, height, width), mines)
  {
    var moves := k.moves + {cell};
    var n := NewFact(cell, count, moves, height, width);
    forall x | x in moves
      ensures x !in mines
    {
      assert x !in k.safes * mines;
    }
    assert n.cells * mines == NeighbourCells(cell, height, width) * mines;
    var kb0 := k.kb + [n];
    assert AllHold(kb0, mines);
    ResolveSound(kb0, mines);
    var first := Conclusions(k.safes + {cell}, k.mines, ResolveFacts(kb0));
    ConclusionsSound(k.safes + {cell}, k.mines, ResolveFacts(kb0), mines);
    ConclusionsSound(first.safes, first.mines, kb0, mines);
  }

  /**
   * The player's `mark_mine` of a real mine keeps its knowledge true, and
   * afterwards no sentence mentions the cell.
   */
  lemma MarkMineSpecSound(k: Knowledge, c: Cell, mines: set<Cell>)
    requires Sound(k, mines) && c in mines
    ensures Sound(MarkMineSpec(k, c), mines)
    ensures forall t :: 0 <= t < |k.kb| ==> c !in MarkMineSpec(k, c).kb[t].cells
  {
    forall t | 0 <= t < |k.kb|
      ensures Holds(MarkMineSpec(k, c).kb[t], mines) && c !in MarkMineSpec(k, c).kb[t].cells
    {
      MarkMineKeepsTruth(k.kb[t], c, mines);
    }
  }

  /**
   * The player's `mark_safe` of a cell that is not a mine keeps its
   * knowledge true, and afterwards no sentence mentions the cell.
   */
  lemma MarkSafeSpecSound(k: Knowledge, c: Cell, mines: set<Cell>)
    requires Sound(k, mines) && c !in mines
    ensures Sound(MarkSafeSpec(k, c), mines)
    ensures forall t :: 0 <= t < |k.kb| ==> c !in MarkSafeSpec(k, c).kb[t].cells
  {
    forall t | 0 <= t < |k.kb|
      ensures Holds(MarkSafeSpec(k, c).kb[t], mines) && c !in MarkSafeSpec(k, c).kb[t].cells
    {
      MarkSafeKeepsTruth(k.kb[t], c, mines);
    }
  }
}
