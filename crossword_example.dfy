module CrosswordExample {
  import opened Wrappers
  import opened CrosswordProblem
  import opened CrosswordAssignment
  import opened CrosswordLogic

  predicate IsExample(a: Variable, b: Variable, p: Crossword) {
    a == Variable(0, 0, Across, 2) && b == Variable(0, 1, Down, 2) &&
    p.height == 2 && p.width == 2 && p.variables == [a, b] &&
    p.overlaps == map[(a, b) := Some((1, 0)), (b, a) := Some((0, 1))]
  }

  lemma ExampleOverlaps(a: Variable, b: Variable, p: Crossword)
    requires IsExample(a, b, p)
    ensures a != b && OverlapOf(p, a, b) == Some((1, 0)) && OverlapOf(p, b, a) == Some((0, 1))
    ensures (a, b) in p.overlaps && (b, a) in p.overlaps
    ensures forall x :: x in p.variables <==> x == a || x == b
  {
  }

  lemma ExampleCells(a: Variable, b: Variable, p: Crossword)
    requires IsExample(a, b, p)
    ensures forall x, y, k1, k2 ::
      (x in p.variables && y in p.variables && x != y && 0 <= k1 < x.length && 0 <= k2 < y.length &&
       SameCell(x, k1, y, k2)) ==> OverlapOf(p, x, y) == Some((k1, k2))
  {
    ExampleOverlaps(a, b, p);
    forall x, y, k1, k2 | x in p.variables && y in p.variables && x != y && 0 <= k1 < x.length && 0 <= k2 < y.length &&
        SameCell(x, k1, y, k2)
      ensures OverlapOf(p, x, y) == Some((k1, k2))
    {
      if x == a {
        assert y == b && CellOf(x, k1) == (0, k1) && CellOf(y, k2) == (k2, 1);
      } else {
        assert x == b && y == a && CellOf(x, k1) == (k1, 1) && CellOf(y, k2) == (0, k2);
      }
    }
  }

  lemma ExampleWellFormed(a: Variable, b: Variable, p: Crossword)
    requires IsExample(a, b, p) && NoDup(p.words)
    ensures WellFormed(p)
  {
    ExampleOverlaps(a, b, p);
    ExampleCells(a, b, p);
    forall v | v in p.variables
      ensures InGrid(p, v)
    {
    }
    forall x, y | x in p.variables && y in p.variables && x != y
      ensures (x, y) in p.overlaps
      ensures OverlapOf(p, x, y).Some? ==>
       (0 <= OverlapOf(p, x, y).value.0 < x.length && 0 <= OverlapOf(p, x, y).value.1 < y.length &&
        SameCell(x, OverlapOf(p, x, y).value.0, y, OverlapOf(p, x, y).value.1))
    {
    }
  }

  lemma ExampleArcs(a: Variable, b: Variable, p: Crossword)
    requires IsExample(a, b, p)
    ensures AllArcs(p) == [(a, b), (b, a)]
    ensures Neighbors(p, a) == [b]
  {
    ExampleOverlaps(a, b, p);
    assert [a, b][..1] == [a];
    assert ArcsFrom(p, a, [a]) == [];
    assert ArcsFrom(p, a, [a, b]) == [(a, b)];
    assert ArcsFrom(p, b, [a]) == [(b, a)];
    assert ArcsFrom(p, b, [a, b]) == [(b, a)];
    assert ArcsUpTo(p, [a]) == [(a, b)];
    assert NeighborsIn(p, a, [a]) == [];
  }

  lemma ExampleRevision(a: Variable, b: Variable, p: Crossword, d: Domains)
    requires IsExample(a, b, p)
    requires d == map[a := ["AT"], b := ["TO", "NO"]]
    ensures Revision(p, d, a, b) == (true, d)
  {
    ExampleOverlaps(a, b, p);
    assert "TO" in d[b] && Matches("AT", 1, "TO", 0);
    assert SupportedBy(1, d[b], 0)("AT");
    assert Prune(d[a], 1, d[b], 0) == ["AT"] by {
      assert d[a] == [] + ["AT"];
      assert d[a][..0] == [];
    }
    assert d[a := ["AT"]] == d;
  }

  lemma ExampleRun(a: Variable, b: Variable, p: Crossword, d: Domains)
    requires IsExample(a, b, p)
    requires d == map[a := ["AT"], b := ["TO", "NO"]]
    ensures HasSlots(p, d) && ArcsOk(p, AllArcs(p))
    ensures Ac3Run(p, d, AllArcs(p), 10) == (Finished(true), d)
  {
    ExampleOverlaps(a, b, p);
    ExampleArcs(a, b, p);
    ExampleRevision(a, b, p, d);
    var q := AllArcs(p);
    assert Requeue(a, b, [b]) == [];
    assert RemoveFirst(RemoveFirst(q, (a, b)), (b, a)) == [];
    Ac3Step(p, d, q, 10, []);
  }

  lemma ExampleDomains(a: Variable, b: Variable, p: Crossword, d: Domains)
    requires IsExample(a, b, p) && p.words == ["AT", "TO", "NO"]
    requires d == map[a := ["AT"], b := ["TO", "NO"]]
    ensures NoDup(p.words) && DomainsOk(p, d) && NodeConsistent(d)
    ensures !ArcConsistent(p, d, b, a)
  {
    ExampleOverlaps(a, b, p);
    assert "NO" in d[b];
    assert forall v :: v in d[a] ==> v == "AT";
    assert !Matches("NO", 0, "AT", 1);
  }

  /**
   * `ac3` can finish without making the domains arc consistent. Slot a runs
   * across the top row of a 2x2 grid and slot b down its right column, so
   * the last letter of a is the first letter of b. The queue holds (a, b)
   * and then (b, a). The first iteration revises a against b and also
   * removes (b, a) unrevised; "AT" keeps its partner "TO", so nothing is
   * requeued and the loop ends, still holding "NO" for b although no word
   * of a ends in N.
   */
  lemma Ac3NotArcConsistent()
    ensures var a, b := Variable(0, 0, Across, 2), Variable(0, 1, Down, 2);
      var p := Crossword(2, 2, [a, b], ["AT", "TO", "NO"], map[(a, b) := Some((1, 0)), (b, a) := Some((0, 1))]);
      var d := map[a := ["AT"], b := ["TO", "NO"]];
      && WellFormed(p) && DomainsOk(p, d) && NodeConsistent(d)
      && AllArcs(p) == [(a, b), (b, a)]
      && Ac3Run(p, d, AllArcs(p), 10) == (Finished(true), d)
      && !ArcConsistent(p, d, b, a)
  {
    var a, b := Variable(0, 0, Across, 2), Variable(0, 1, Down, 2);
    var p := Crossword(2, 2, [a, b], ["AT", "TO", "NO"], map[(a, b) := Some((1, 0)), (b, a) := Some((0, 1))]);
    var d := map[a := ["AT"], b := ["TO", "NO"]];
    ExampleDomains(a, b, p, d);
    ExampleWellFormed(a, b, p);
    ExampleArcs(a, b, p);
    ExampleRun(a, b, p, d);
  }
}
