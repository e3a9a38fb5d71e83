/**
 * The Minesweeper game board and the knowledge-based player. A `Sentence`
 * is an object whose cell set and count are updated in place; the player
 * holds its played cells, known safes, known mines and a list of sentences,
 * and `AddKnowledge` updates all of them. Each state-changing method is
 * proved to produce the value that the matching function of module
 * MineLogic describes; the properties are proved there.
 */
module Minesweeper {
  import opened Wrappers
  import opened MineLogic

  /** A logical statement: `count` of the cells in `cells` are mines. */
  class Sentence {
    var cells: set<Cell>
    var count: int

    constructor (cells: set<Cell>, count: int)
      ensures this.cells == cells && this.count == count
    {
      this.cells := cells;
      this.count := count;
    }

    /** The sentence as a value; two sentences are equal (`__eq__`) when their values are. */
    function Value(): Fact
      reads this
    {
      Fact(cells, count)
    }

    /** The cells known to be mines: all of them when the count is their number and is not zero. */
    method KnownMines() returns (known: Option<set<Cell>>)
      ensures known == KnownMinesOf(Value())
    {
      if |cells| == count && count != 0 {
        var found: set<Cell> := {};
        var rest := cells;
        while rest != {}
          invariant rest <= cells
          invariant found == cells - rest
          decreases |rest|
        {
          var c :| c in rest;
          found := found + {c};
          rest := rest - {c};
        }
        assert found == cells;
        return Some(found);
      }
      return None;
    }

    /** The cells known to be safe: all of them when the count is zero. */
    method KnownSafes() returns (known: Option<set<Cell>>)
      ensures known == KnownSafesOf(Value())
    {
      if count == 0 {
        var found: set<Cell> := {};
        var rest := cells;
        while rest != {}
          invariant rest <= cells
          invariant found == cells - rest
          decreases |rest|
        {
          var c :| c in rest;
          found := found + {c};
          rest := rest - {c};
        }
        assert found == cells;
        return Some(found);
      }
      return None;
    }

    /** `c` is a mine: it leaves the sentence and, if it was there, the count drops by one. */
    method MarkMine(c: Cell)
      modifies this
      ensures Value() == MarkMineFact(old(Value()), c)
    {
      if c in cells {
        cells := cells - {c};
        count := count - 1;
      }
    }

    /** `c` is safe: it leaves the sentence, the count stays. */
    method MarkSafe(c: Cell)
      modifies this
      ensures Value() == MarkSafeFact(old(Value()), c)
    {
      if c in cells {
        cells := cells - {c};
      }
    }
  }

  /** No sentence object appears twice in `kb`. */
  ghost predicate Distinct(kb: seq<Sentence>)
  {
    forall i, j :: 0 <= i < j < |kb| ==> kb[i] != kb[j]
  }

  /** The values of the sentences of `kb`, in order. */
  function Values(kb: seq<Sentence>): (r: seq<Fact>)
    reads kb
    ensures |r| == |kb|
  {
    seq(|kb|, i requires 0 <= i < |kb| reads kb => kb[i].Value())
  }

  lemma ValuesAppend(a: seq<Sentence>, b: seq<Sentence>)
    ensures Values(a + b) == Values(a) + Values(b)
  {
  }

  lemma DistinctAppend(a: seq<Sentence>, b: seq<Sentence>)
    requires Distinct(a) && Distinct(b) && forall s :: s in b ==> s !in a
    ensures Distinct(a + b)
  {
    forall i, j | 0 <= i < j < |a + b|
      ensures (a + b)[i] != (a + b)[j]
    {
      if j >= |a| && i < |a| {
        assert (a + b)[j] in b;
      }
    }
  }

  /**
   * The inner loop of `Resolve` for one `sentence1`: for each sentence of
   * `kb` in turn, skip it when it equals `sentence1` as a value, else emit
   * the larger cell set less the smaller when one contains the other.
   */
  method ResolveAgainst(sentence1: Sentence, kb: seq<Sentence>) returns (row: seq<Sentence>)
    ensures Values(row) == ResolveWith(sentence1.Value(), Values(kb), |kb|)
    ensures Distinct(row) && forall s :: s in row ==> fresh(s)
  {
    ghost var facts := Values(kb);
    ghost var f1 := sentence1.Value();
    row := [];
    var j := 0;
    while j < |kb|
      invariant 0 <= j <= |kb|
      invariant Values(kb) == facts && sentence1.Value() == f1
      invariant Values(row) == ResolveWith(f1, facts, j)
      invariant Distinct(row) && forall s :: s in row ==> fresh(s)
    {
      var sentence2 := kb[j];
      assert sentence2.Value() == facts[j];
      ghost var before := Values(row);
      if sentence1.cells == sentence2.cells && sentence1.count == sentence2.count {
      } else if sentence2.cells <= sentence1.cells {
        var t := new Sentence(sentence1.cells - sentence2.cells, sentence1.count - sentence2.count);
        DistinctAppend(row, [t]);
        ValuesAppend(row, [t]);
        row := row + [t];
      } else if sentence1.cells <= sentence2.cells {
        var t := new Sentence(sentence2.cells - sentence1.cells, sentence2.count - sentence1.count);
        DistinctAppend(row, [t]);
        ValuesAppend(row, [t]);
        row := row + [t];
      }
      assert Values(row) == before + ResolvePair(f1, facts[j]);
      var next := j + 1;
      ResolveWithStep(f1, facts, j, next);
      j := next;
    }
  }

  /**
   * Every ordered pair of sentences that differ as values, one of whose
   * cell sets lies inside the other's, gives a new sentence: the larger
   * set less the smaller, with the difference of the counts.
   */
  method Resolve(kb: seq<Sentence>) returns (inferred: seq<Sentence>)
    ensures Values(inferred) == ResolveFacts(Values(kb))
    ensures Distinct(inferred) && forall s :: s in inferred ==> fresh(s)
  {
    ghost var facts := Values(kb);
    inferred := [];
    var i := 0;
    while i < |kb|
      invariant 0 <= i <= |kb|
      invariant Values(kb) == facts
      invariant Values(inferred) == ResolveUpTo(facts, i)
      invariant Distinct(inferred) && forall s :: s in inferred ==> fresh(s)
    {
      var row := ResolveAgainst(kb[i], kb);
      DistinctAppend(inferred, row);
      ValuesAppend(inferred, row);
      inferred := inferred + row;
      i := i + 1;
    }
  }

  /** `for cell in s: sentence.mark_safe(cell)`: the order of the cells does not matter. */
  method MarkSafeCells(sentence: Sentence, s: set<Cell>)
    modifies sentence
    ensures sentence.Value() == MarkSafesFact(old(sentence.Value()), s)
  {
    ghost var start := sentence.Value();
    ghost var done: set<Cell> := {};
    var rest := s;
    assert start == MarkSafesFact(start, done);
    while rest != {}
      invariant rest <= s && done == s - rest
      invariant sentence.Value() == MarkSafesFact(start, done)
      decreases |rest|
    {
      var c :| c in rest;
      MarkSafesStep(start, done, c);
      sentence.MarkSafe(c);
      done := done + {c};
      rest := rest - {c};
    }
    assert done == s;
  }

  /** `for cell in s: sentence.mark_mine(cell)`: the order of the cells does not matter. */
  method MarkMineCells(sentence: Sentence, s: set<Cell>)
    modifies sentence
    ensures sentence.Value() == MarkMinesFact(old(sentence.Value()), s)
  {
    ghost var start := sentence.Value();
    ghost var done: set<Cell> := {};
    var rest := s;
    assert start == MarkMinesFact(start, done);
    while rest != {}
      invariant rest <= s && done == s - rest
      invariant sentence.Value() == MarkMinesFact(start, done)
      decreases |rest|
    {
      var c :| c in rest;
      MarkMinesStep(start, done, c);
      sentence.MarkMine(c);
      done := done + {c};
      rest := rest - {c};
    }
    assert done == s;
  }

  /** `for sentence in kb: for cell in s: sentence.mark_safe(cell)`. */
  method MarkSafeEach(kb: seq<Sentence>, s: set<Cell>)
    requires Distinct(kb)
    modifies set x | x in kb
    ensures Values(kb) == MarkSafesAll(old(Values(kb)), s)
  {
    ghost var before := Values(kb);
    var i := 0;
    while i < |kb|
      invariant 0 <= i <= |kb|
      invariant forall k :: 0 <= k < i ==> kb[k].Value() == MarkSafesFact(before[k], s)
      invariant forall k :: i <= k < |kb| ==> kb[k].Value() == before[k]
    {
      MarkSafeCells(kb[i], s);
      i := i + 1;
    }
    assert Values(kb) == MarkSafesAll(before, s);
  }

  /** `for sentence in kb: for cell in s: sentence.mark_mine(cell)`. */
  method MarkMineEach(kb: seq<Sentence>, s: set<Cell>)
    requires Distinct(kb)
    modifies set x | x in kb
    ensures Values(kb) == MarkMinesAll(old(Values(kb)), s)
  {
    ghost var before := Values(kb);
    var i := 0;
    while i < |kb|
      invariant 0 <= i <= |kb|
      invariant forall k :: 0 <= k < i ==> kb[k].Value() == MarkMinesFact(before[k], s)
      invariant forall k :: i <= k < |kb| ==> kb[k].Value() == before[k]
    {
      MarkMineCells(kb[i], s);
      i := i + 1;
    }
    assert Values(kb) == MarkMinesAll(before, s);
  }

  /** The Minesweeper player: what it has played, what it knows, and its sentences. */
  class MinesweeperAI {
    const height: int
    const width: int
    var movesMade: set<Cell>
    var mines: set<Cell>
    var safes: set<Cell>
    var knowledge: seq<Sentence>

    ghost predicate Valid()
      reads this
    {
      Distinct(knowledge)
    }

    /** The player's fields as a value. */
    function State(): Knowledge
      reads this, set s | s in knowledge
    {
      Knowledge(movesMade, mines, safes, Values(knowledge))
    }

    constructor (height: int, width: int)
      ensures Valid() && this.height == height && this.width == width
      ensures State() == Knowledge({}, {}, {}, [])
    {
      this.height := height;
      this.width := width;
      movesMade := {};
      mines := {};
      safes := {};
      knowledge := [];
    }

    /** Record `c` as a mine and take it out of every sentence. */
    method MarkMine(c: Cell)
      requires Valid()
      modifies this`mines, set s | s in knowledge
      ensures Valid() && State() == MarkMineSpec(old(State()), c)
    {
      ghost var k := State();
      ghost var before := Values(knowledge);
      mines := mines + {c};
      var i := 0;
      while i < |knowledge|
        invariant 0 <= i <= |knowledge|
        invariant mines == k.mines + {c}
        invariant forall t :: 0 <= t < i ==> knowledge[t].Value() == MarkMineFact(before[t], c)
        invariant forall t :: i <= t < |knowledge| ==> knowledge[t].Value() == before[t]
      {
        knowledge[i].MarkMine(c);
        i := i + 1;
      }
      assert Values(knowledge) == MarkMineSpec(k, c).kb;
    }

    /** Record `c` as safe and take it out of every sentence. */
    method MarkSafe(c: Cell)
      requires Valid()
      modifies this`safes, set s | s in knowledge
      ensures Valid() && State() == MarkSafeSpec(old(State()), c)
    {
      ghost var k := State();
      ghost var before := Values(knowledge);
      safes := safes + {c};
      var i := 0;
      while i < |knowledge|
        invariant 0 <= i <= |knowledge|
        invariant safes == k.safes + {c}
        invariant forall t :: 0 <= t < i ==> knowledge[t].Value() == MarkSafeFact(before[t], c)
        invariant forall t :: i <= t < |knowledge| ==> knowledge[t].Value() == before[t]
      {
        knowledge[i].MarkSafe(c);
        i := i + 1;
      }
      assert Values(knowledge) == MarkSafeSpec(k, c).kb;
    }

    /** `for sentence in kb: if sentence.known_safes(): for cell in ...: self.safes.add(cell)`. */
    method AddKnownSafes(kb: seq<Sentence>)
      modifies this`safes
      ensures safes == old(safes) + SafesIn(Values(kb))
    {
      ghost var facts := Values(kb);
      var i := 0;
      while i < |kb|
        invariant 0 <= i <= |kb|
        invariant safes == old(safes) + SafesIn(facts[..i])
      {
        var known := kb[i].KnownSafes();
        if known.Some? && known.value != {} {
          AddSafes(known.value);
        }
        var next := i + 1;
        SafesInStep(facts, i, next);
        i := next;
      }
      assert facts[..i] == facts;
    }

    /** `self.safes.add(cell)` for each cell of a set, in any order. */
    method AddSafes(cells: set<Cell>)
      modifies this`safes
      ensures safes == old(safes) + cells
    {
      var rest := cells;
      while rest != {}
        invariant rest <= cells
        invariant safes == old(safes) + (cells - rest)
        decreases |rest|
      {
        var c :| c in rest;
        safes := safes + {c};
        rest := rest - {c};
      }
    }

    /** `self.mines.add(cell)` for each cell of a set, in any order. */
    method AddMines(cells: set<Cell>)
      modifies this`mines
      ensures mines == old(mines) + cells
    {
      var rest := cells;
      while rest != {}
        invariant rest <= cells
        invariant mines == old(mines) + (cells - rest)
        decreases |rest|
      {
        var c :| c in rest;
        mines := mines + {c};
        rest := rest - {c};
      }
    }

    /** `for sentence in kb: if sentence.known_mines(): for cell in ...: self.mines.add(cell)`. */
    method AddKnownMines(kb: seq<Sentence>)
      modifies this`mines
      ensures mines == old(mines) + MinesIn(Values(kb))
    {
      ghost var facts := Values(kb);
      var i := 0;
      while i < |kb|
        invariant 0 <= i <= |kb|
        invariant mines == old(mines) + MinesIn(facts[..i])
      {
        var known := kb[i].KnownMines();
        if known.Some? && known.value != {} {
          AddMines(known.value);
        }
        var next := i + 1;
        MinesInStep(facts, i, next);
        i := next;
      }
      assert facts[..i] == facts;
    }

    /**
     * One round of conclusions over `kb`: the four loops `add_knowledge`
     * runs first over the resolved sentences and then over its knowledge.
     */
    method DrawConclusions(kb: seq<Sentence>)
      requires Distinct(kb)
      modifies this`safes, this`mines, set x | x in kb
      ensures Conclusion(safes, mines, Values(kb)) == Conclusions(old(safes), old(mines), old(Values(kb)))
      ensures movesMade == old(movesMade) && knowledge == old(knowledge)
    {
      assert (this as object) !in (set x: object | x in kb);
      AddKnownSafes(kb);
      MarkSafeEach(kb, safes);
      AddKnownMines(kb);
      MarkMineEach(kb, mines);
    }

    /** The neighbours of `cell` on the board that have not been played. */
    method UnplayedNeighbours(cell: Cell) returns (cells: set<Cell>)
      ensures cells == NeighbourCells(cell, height, width) - movesMade
    {
      cells := {};
      var i := cell.0 - 1;
      while i < cell.0 + 2
        invariant cell.0 - 1 <= i <= cell.0 + 2
        invariant forall c :: c in cells <==> c in NeighbourCells(cell, height, width) - movesMade && c.0 < i
      {
        var j := cell.1 - 1;
        while j < cell.1 + 2
          invariant cell.1 - 1 <= j <= cell.1 + 2
          invariant forall c :: c in cells <==>
            c in NeighbourCells(cell, height, width) - movesMade && (c.0 < i || (c.0 == i && c.1 < j))
        {
          if (i, j) != cell && 0 <= i < height && 0 <= j < width && (i, j) !in movesMade {
            cells := cells + {(i, j)};
          }
          j := j + 1;
        }
        i := i + 1;
      }
    }

    /** The first steps of `add_knowledge`: record the move, the safe cell and the new sentence. */
    method RecordMove(cell: Cell, count: int)
      requires Valid()
      modifies this`movesMade, this`safes, this`knowledge
      ensures Valid()
      ensures movesMade == old(movesMade) + {cell} && safes == old(safes) + {cell}
      ensures |knowledge| == |old(knowledge)| + 1 && knowledge[..|old(knowledge)|] == old(knowledge)
      ensures fresh(knowledge[|old(knowledge)|])
      ensures Values(knowledge) == old(Values(knowledge)) + [NewFact(cell, count, movesMade, height, width)]
    {
      movesMade := movesMade + {cell};
      safes := safes + {cell};
      var cells := UnplayedNeighbours(cell);
      var newKnowledge := new Sentence(cells, count);
      knowledge := knowledge + [newKnowledge];
    }

    /**
     * The inference half of `add_knowledge`: resolve the knowledge base,
     * draw conclusions from the resolved sentences (which are then
     * dropped), and then from the knowledge base itself.
     */
    method Conclude()
      requires Valid()
      modifies this`safes, this`mines, set s | s in knowledge
      ensures Valid() && knowledge == old(knowledge) && movesMade == old(movesMade)
      ensures var first := Conclusions(old(safes), old(mines), ResolveFacts(old(Values(knowledge))));
        var second := Conclusions(first.safes, first.mines, old(Values(knowledge)));
        safes == second.safes && mines == second.mines && Values(knowledge) == second.facts
    {
      ghost var kb0 := Values(knowledge);
      ghost var first := Conclusions(safes, mines, ResolveFacts(kb0));
      ConcludeFromResolved();
      assert safes == first.safes && mines == first.mines && Values(knowledge) == kb0;
      DrawConclusions(knowledge);
    }

    /** The first round of `Conclude`, over the sentences `Resolve` infers from the knowledge base. */
    method ConcludeFromResolved()
      requires Valid()
      modifies this`safes, this`mines
      ensures knowledge == old(knowledge) && Values(knowledge) == old(Values(knowledge))
      ensures var first := Conclusions(old(safes), old(mines), ResolveFacts(old(Values(knowledge))));
        safes == first.safes && mines == first.mines
    {
      var inferred := Resolve(knowledge);
      DrawConclusions(inferred);
    }

    /**
     * The board reports that the safe cell `cell` has `count` mines around
     * it: record the move and the safe cell, add a sentence over the
     * unplayed neighbours, and draw what conclusions the resolvents of the
     * knowledge base and the knowledge base itself allow.
     */
    method AddKnowledge(cell: Cell, count: int)
      requires Valid()
      modifies this, set s | s in knowledge
      ensures Valid() && State() == AddKnowledgeSpec(old(State()), cell, count, height, width)
      ensures |knowledge| == |old(knowledge)| + 1 && knowledge[..|old(knowledge)|] == old(knowledge)
      ensures fresh(knowledge[|old(knowledge)|])
    {
      ghost var k := State();
      RecordMove(cell, count);
      ghost var kb0 := Values(knowledge);
      assert kb0 == k.kb + [NewFact(cell, count, k.moves + {cell}, height, width)];
      Conclude();
    }

    /** A known-safe cell not yet played, or None when every known-safe cell has been played. */
    method MakeSafeMove() returns (move: Option<Cell>)
      ensures move.Some? ==> move.value in safes && move.value !in movesMade
      ensures move.None? <==> safes <= movesMade
    {
      var rest := safes;
      while rest != {}
        invariant rest <= safes
        invariant safes - rest <= movesMade
        decreases |rest|
      {
        var c :| c in rest;
        if c !in movesMade {
          return Some(c);
        }
        rest := rest - {c};
      }
      return None;
    }
  }

  /** The game board: a grid of booleans, true where a mine lies. */
  class Game {
    const height: int
    const width: int
    const board: array2<bool>
    var mines: set<Cell>
    var minesFound: set<Cell>

    predicate OnBoard(c: Cell)
    {
      0 <= c.0 < height && 0 <= c.1 < width
    }

    ghost predicate Valid()
      reads this, board
    {
      && board.Length0 == height && board.Length1 == width
      && (forall c :: c in mines ==> OnBoard(c))
      && forall i, j :: 0 <= i < height && 0 <= j < width ==> (board[i, j] <==> (i, j) in mines)
    }

    /**
     * A board of the given size with mines at exactly the cells of
     * `layout`; the layout stands in for the random placement.
     */
    constructor (height: nat, width: nat, layout: set<Cell>)
      requires forall c :: c in layout ==> 0 <= c.0 < height && 0 <= c.1 < width
      ensures Valid() && fresh(board)
      ensures this.height == height && this.width == width
      ensures mines == layout && minesFound == {}
    {
      this.height := height;
      this.width := width;
      board := new bool[height, width]((i, j) => (i, j) in layout);
      mines := layout;
      minesFound := {};
    }

    method IsMine(cell: Cell) returns (mine: bool)
      requires Valid() && OnBoard(cell)
      ensures mine <==> cell in mines
    {
      mine := board[cell.0, cell.1];
    }

    /** The inner loop of `nearby_mines`: the neighbour mines of `cell` in row i. */
    method RowMines(cell: Cell, i: int) returns (row: int, ghost found: set<Cell>)
      requires Valid() && cell.0 - 1 <= i <= cell.0 + 1
      ensures forall c :: c in found <==> c in NeighbourCells(cell, height, width) * mines && c.0 == i
      ensures row == |found|
    {
      row := 0;
      found := {};
      var j := cell.1 - 1;
      while j < cell.1 + 2
        invariant cell.1 - 1 <= j <= cell.1 + 2
        invariant forall c :: c in found <==> c in NeighbourCells(cell, height, width) * mines && c.0 == i && c.1 < j
        invariant row == |found|
      {
        if (i, j) != cell && 0 <= i < height && 0 <= j < width {
          if board[i, j] {
            row := row + 1;
            found := found + {(i, j)};
          }
        }
        j := j + 1;
      }
    }

    /** The number of mines on the board within one row and column of `cell`, not counting `cell`. */
    method NearbyMines(cell: Cell) returns (count: int)
      requires Valid()
      ensures count == |NeighbourCells(cell, height, width) * mines|
      ensures 0 <= count <= 8
    {
      count := 0;
      ghost var seen: set<Cell> := {};
      var i := cell.0 - 1;
      while i < cell.0 + 2
        invariant cell.0 - 1 <= i <= cell.0 + 2
        invariant forall c :: c in seen <==> c in NeighbourCells(cell, height, width) * mines && c.0 < i
        invariant count == |seen|
      {
        var row, found := RowMines(cell, i);
        assert seen * found == {};
        count := count + row;
        seen := seen + found;
        i := i + 1;
      }
      assert seen == NeighbourCells(cell, height, width) * mines;
      NeighbourCellsAtMostEight(cell, height, width);
      SubsetCard(seen, NeighbourCells(cell, height, width));
    }

    /** All mines have been flagged. */
    predicate Won()
      reads this
    {
      minesFound == mines
    }
  }
}
