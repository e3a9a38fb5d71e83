/**
 * The puzzle the crossword solver is handed: the slots ("variables") of the
 * grid, the word list and the table of overlaps between slots. The solver
 * never changes any of it.
 */
module CrosswordProblem {
  import opened Wrappers

  datatype Direction = Across | Down

  /** A slot: the row and column of its first cell, its direction and its length. */
  datatype Variable = Variable(i: int, j: int, direction: Direction, length: int)

  /**
   * The grid size, the slots in declaration order, the word list (a set of
   * distinct words, in a fixed order) and, for each ordered pair of distinct
   * slots (x, y), either None or the pair (i, j) saying that letter i of x
   * and letter j of y share a cell.
   */
  datatype Crossword = Crossword(
    height: nat,
    width: nat,
    variables: seq<Variable>,
    words: seq<string>,
    overlaps: map<(Variable, Variable), Option<(int, int)>>)

  /** What a Python call can raise in the solver. */
  datatype Exception = KeyError | TypeError

  /** The result of a call that returns a value or raises. */
  datatype Outcome<T> = Return(value: T) | Raise(error: Exception)

  predicate NoDup<T(==)>(s: seq<T>) {
    forall a, b :: 0 <= a < b < |s| ==> s[a] != s[b]
  }

  /** The grid cell that holds letter k of slot v. */
  function CellOf(v: Variable, k: int): (int, int) {
    if v.direction == Down then (v.i + k, v.j) else (v.i, v.j + k)
  }

  /** Letter kx of slot x and letter ky of slot y sit in the same cell. */
  predicate SameCell(x: Variable, kx: int, y: Variable, ky: int) {
    CellOf(x, kx) == CellOf(y, ky)
  }

  /** The overlap of x with y; None also for a pair the table does not list. */
  function OverlapOf(p: Crossword, x: Variable, y: Variable): Option<(int, int)> {
    if (x, y) in p.overlaps then p.overlaps[(x, y)] else None
  }

  /** Slot v lies inside the grid. */
  predicate InGrid(p: Crossword, v: Variable) {
    0 < v.length && 0 <= v.i && 0 <= v.j &&
    CellOf(v, v.length - 1).0 < p.height && CellOf(v, v.length - 1).1 < p.width
  }

  /**
   * What the geometry guarantees: distinct slots and words, slots inside the
   * grid, an overlap entry for every ordered pair of distinct slots, and an
   * overlap (i, j) exactly when letter i of x and letter j of y share a cell.
   */
  predicate WellFormed(p: Crossword) {
    NoDup(p.variables) && NoDup(p.words) &&
    (forall v :: v in p.variables ==> InGrid(p, v)) &&
    (forall x, y :: x in p.variables && y in p.variables && x != y ==> (x, y) in p.overlaps) &&
    (forall x, y :: x in p.variables && y in p.variables && x != y && OverlapOf(p, x, y).Some? ==>
       (0 <= OverlapOf(p, x, y).value.0 < x.length && 0 <= OverlapOf(p, x, y).value.1 < y.length &&
        SameCell(x, OverlapOf(p, x, y).value.0, y, OverlapOf(p, x, y).value.1))) &&
    (forall x, y, k1, k2 ::
       (x in p.variables && y in p.variables && x != y && 0 <= k1 < x.length && 0 <= k2 < y.length &&
        SameCell(x, k1, y, k2)) ==> OverlapOf(p, x, y) == Some((k1, k2)))
  }

  /** Slots of vs, in order, that overlap x. */
  function NeighborsIn(p: Crossword, x: Variable, vs: seq<Variable>): (r: seq<Variable>)
    ensures forall v :: v in r <==> v in vs && v != x && OverlapOf(p, x, v).Some?
  {
    if vs == [] then []
    else
      var v := vs[|vs| - 1];
      assert vs == vs[..|vs| - 1] + [v];
      NeighborsIn(p, x, vs[..|vs| - 1]) + (if v != x && OverlapOf(p, x, v).Some? then [v] else [])
  }

  /** `neighbors(x)`: the slots that overlap x, in declaration order. */
  function Neighbors(p: Crossword, x: Variable): (r: seq<Variable>)
    ensures forall v :: v in r <==> v in p.variables && v != x && OverlapOf(p, x, v).Some?
  {
    NeighborsIn(p, x, p.variables)
  }
}
