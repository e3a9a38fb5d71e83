/**
 * The crossword generator: a `CrosswordCreator` holds the puzzle and the
 * domain of every slot, and its methods rewrite the domains step by step
 * (node consistency, arc revision, the AC-3 worklist, the consistency check)
 * while the backtracking search builds an assignment. Each method is proved
 * against the function of CrosswordLogic that says what it computes.
 */
module Generate {
  import opened Wrappers
  import opened CrosswordProblem
  import opened CrosswordAssignment
  import opened CrosswordLogic
  import opened CrosswordSolutions

  /**
   * What `backtrack` and `solve` end with: a complete assignment, None, an
   * exception, or (in this model only) the recursion or an `ac3` loop
   * running past its fuel.
   */
  datatype Search = Solved(solution: Assignment) | NoSolution | Failed(error: Exception) | OutOfFuel

  class CrosswordCreator {
    const crossword: Crossword
    var domains: Domains

    predicate Valid()
      reads this
    {
      WellFormed(crossword) && DomainsOk(crossword, domains)
    }

    /** Every slot starts with the whole word list. */
    constructor(crossword: Crossword)
      requires WellFormed(crossword)
      ensures this.crossword == crossword
      ensures domains == map v | v in crossword.variables :: crossword.words
      ensures Valid()
    {
      this.crossword := crossword;
      domains := map v | v in crossword.variables :: crossword.words;
    }

    /**
     * `letter_grid`: a height-by-width grid, each cell holding the letter
     * the assignment's last word through it puts there, or None.
     */
    method LetterGrid(assignment: Assignment) returns (letters: array2<Option<char>>)
      requires Valid() && AssignmentOk(crossword, assignment)
      requires AllWords(assignment) && LengthsFit(assignment)
      ensures fresh(letters)
      ensures letters.Length0 == crossword.height && letters.Length1 == crossword.width
      ensures forall r, c :: 0 <= r < crossword.height && 0 <= c < crossword.width ==>
        letters[r, c] == GridAt(assignment, r, c)
    {
      letters := new Option<char>[crossword.height, crossword.width]((_, _) => None);
      for s := 0 to |assignment|
        invariant forall r, c :: 0 <= r < crossword.height && 0 <= c < crossword.width ==>
          letters[r, c] == GridAt(assignment[..s], r, c)
      {
        var variable, word := assignment[s].key, assignment[s].val.word;
        assert assignment[..s + 1][..s] == assignment[..s];
        assert variable in crossword.variables && SizeOf(assignment[s].val) == variable.length;
        WriteWord(letters, crossword, variable, word);
      }
      assert assignment[..|assignment|] == assignment;
    }

    /** The inner loop of `letter_grid`: the letters of one word written into its slot's cells. */
    static method WriteWord(letters: array2<Option<char>>, p: Crossword, v: Variable, word: string)
      requires InGrid(p, v) && |word| == v.length
      requires letters.Length0 == p.height && letters.Length1 == p.width
      modifies letters
      ensures forall r, c :: 0 <= r < p.height && 0 <= c < p.width ==>
        letters[r, c] == if Covers(v, word, r, c) then Some(word[Offset(v, r, c)]) else old(letters[r, c])
    {
      for k := 0 to |word|
        invariant forall r, c :: 0 <= r < p.height && 0 <= c < p.width ==>
          letters[r, c] == if Covers(v, word[..k], r, c) then Some(word[Offset(v, r, c)]) else old(letters[r, c])
      {
        var (i, j) := CellOf(v, k);
        OffsetOfCell(v, k);
        letters[i, j] := Some(word[k]);
      }
      assert word[..|word|] == word;
    }

    /**
     * `enforce_node_consistency`: each slot's domain loses, one `remove` at a
     * time, the words whose length is not the slot's.
     */
    method EnforceNodeConsistency()
      requires Valid()
      modifies this
      ensures domains == NodeFiltered(old(domains))
      ensures Valid() && NodeConsistent(domains)
    {
      NodeFilteredNone(domains);
      var vars := crossword.variables;
      for n := 0 to |vars|
        invariant domains == NodeFilteredUpTo(old(domains), vars[..n])
      {
        var v := vars[n];
        assert v in old(domains) && v !in vars[..n];
        NodeFilteredStep(old(domains), vars, n);
        assert NoDup(domains[v]);
        var current := RemoveMisfits(v, domains[v]);
        domains := domains[v := current];
      }
      assert vars[..|vars|] == vars;
      NodeFilteredAll(old(domains), vars);
      NodeFilteredOk(crossword, old(domains));
    }

    /**
     * The inner loop of `enforce_node_consistency`: go through a copy of the
     * domain and `remove` from the domain list each word whose length is not
     * the slot's.
     */
    static method RemoveMisfits(v: Variable, domain: seq<string>) returns (current: seq<string>)
      requires NoDup(domain)
      ensures current == Filter(domain, HasLength(v.length))
    {
      var copy := domain;
      current := domain;
      for k := 0 to |copy|
        invariant current == Filter(copy[..k], HasLength(v.length)) + copy[k..]
      {
        NodeRemoveStep(copy, k, v.length);
        if v.length != |copy[k]| {
          current := RemoveFirst(current, copy[k]);
        }
      }
      assert copy[..|copy|] == copy;
    }

    /**
     * The nested loop of `revise`: for each word of y's domain, in order, append
     * every word of x's domain that agrees with it at the overlap (i, j), and
     * set the flag on each such match.
     */
    static method Candidates(dx: seq<string>, i: int, dy: seq<string>, j: int) returns (candidates: seq<string>, flag: bool)
      requires IndexInAll(dx, i) && IndexInAll(dy, j)
      ensures forall w :: w in candidates <==> w in dx && exists v :: v in dy && Matches(w, i, v, j)
      ensures flag <==> exists w :: w in dx && exists v :: v in dy && Matches(w, i, v, j)
    {
      candidates, flag := [], false;
      for b := 0 to |dy|
        invariant forall w :: w in candidates <==> w in dx && exists v :: v in dy[..b] && Matches(w, i, v, j)
        invariant flag <==> candidates != []
      {
        var found := MatchesFor(dx, i, dy[b], j);
        assert dy[..b + 1] == dy[..b] + [dy[b]];
        forall w | w in found
          ensures exists v :: v in dy[..b + 1] && Matches(w, i, v, j)
        {
          assert dy[b] in dy[..b + 1];
        }
        candidates := candidates + found;
        flag := flag || found != [];
      }
      assert dy[..|dy|] == dy;
      if flag {
        assert candidates[0] in candidates;
      }
    }

    /** The inner loop of `revise`: the words of x's domain, in order, that agree with word2 at (i, j). */
    static method MatchesFor(dx: seq<string>, i: int, word2: string, j: int) returns (found: seq<string>)
      requires IndexInAll(dx, i) && 0 <= j < |word2|
      ensures forall w :: w in found <==> w in dx && Matches(w, i, word2, j)
    {
      found := [];
      for a := 0 to |dx|
        invariant forall w :: w in found <==> w in dx[..a] && Matches(w, i, word2, j)
      {
        assert dx[..a + 1] == dx[..a] + [dx[a]];
        if dx[a][i] == word2[j] {
          found := found + [dx[a]];
        }
      }
      assert dx[..|dx|] == dx;
    }

    /**
     * `revise(x, y)`: collect every word of x's domain that matches some word
     * of y's domain at the overlap, set the flag on each match, and replace
     * x's domain with those words. The order `list(set(...))` gives them is
     * modelled as their order in the old domain.
     */
    method Revise(x: Variable, y: Variable) returns (flag: bool)
      requires Valid() && NodeConsistent(domains)
      requires x in crossword.variables && y in crossword.variables && x != y
      modifies this
      ensures (flag, domains) == Revision(crossword, old(domains), x, y)
      ensures Valid() && NodeConsistent(domains)
    {
      RevisionOk(crossword, domains, x, y);
      flag := false;
      var overlap := OverlapOf(crossword, x, y);
      if overlap.None? {
        return;
      }
      var (i, j) := overlap.value;
      var dx, dy := domains[x], domains[y];
      var candidates;
      candidates, flag := Candidates(dx, i, dy, j);
      var kept := Filter(dx, w => w in candidates);
      FilterAgree(dx, w => w in candidates, SupportedBy(i, dy, j));
      FilterNonEmpty(dx, SupportedBy(i, dy, j));
      domains := domains[x := kept];
    }

    /** The first loop of `ac3()`: every ordered pair of distinct slots whose overlap is not None. */
    static method InitialArcs(p: Crossword) returns (queue: seq<Arc>)
      ensures queue == AllArcs(p)
    {
      queue := [];
      var vars := p.variables;
      for a := 0 to |vars|
        invariant queue == ArcsUpTo(p, vars[..a])
      {
        var x := vars[a];
        assert vars[..a + 1][..a] == vars[..a];
        var row := ArcsOf(p, x);
        queue := queue + row;
      }
      assert vars[..|vars|] == vars;
    }

    /** The inner loop of the first loop of `ac3()`: the arcs (x, y) for every other slot y overlapping x. */
    static method ArcsOf(p: Crossword, x: Variable) returns (row: seq<Arc>)
      ensures row == ArcsFrom(p, x, p.variables)
    {
      row := [];
      var vars := p.variables;
      for b := 0 to |vars|
        invariant row == ArcsFrom(p, x, vars[..b])
      {
        var y := vars[b];
        assert vars[..b + 1][..b] == vars[..b];
        if x == y {
          continue;
        } else if OverlapOf(p, x, y).Some? {
          row := row + [(x, y)];
        }
      }
      assert vars[..|vars|] == vars;
    }

    /** The last loop of `ac3`: queue (z, x) for each neighbour z of x other than y. */
    static method RequeueArcs(queue: seq<Arc>, x: Variable, y: Variable, neighbors: seq<Variable>) returns (q: seq<Arc>)
      ensures q == queue + Requeue(x, y, neighbors)
    {
      q := queue;
      for k := 0 to |neighbors|
        invariant q == queue + Requeue(x, y, neighbors[..k])
      {
        assert neighbors[..k + 1][..k] == neighbors[..k];
        var z := neighbors[k];
        if z != y {
          q := q + [(z, x)];
        }
      }
      assert neighbors[..|neighbors|] == neighbors;
    }

    /**
     * One turn of the `ac3` loop up to the revision: take the front arc (x, y)
     * off the queue, remove (y, x) too if it is queued, and revise x against y.
     */
    method ReviseFront(queue: seq<Arc>) returns (revised: bool, rest: seq<Arc>)
      requires Valid() && NodeConsistent(domains) && ArcsOk(crossword, queue) && queue != []
      modifies this
      ensures rest == RemoveFirst(RemoveFirst(queue, queue[0]), (queue[0].1, queue[0].0))
      ensures (revised, domains) == Revision(crossword, old(domains), queue[0].0, queue[0].1)
      ensures Valid() && NodeConsistent(domains)
    {
      var x, y := queue[0].0, queue[0].1;
      rest := queue;
      RemoveFirstOk(queue, (x, y));
      RemoveFirstOk(RemoveFirst(queue, (x, y)), (y, x));
      if (x, y) in rest {
        rest := RemoveFirst(rest, (x, y));
      }
      if (y, x) in rest {
        rest := RemoveFirst(rest, (y, x));
      }
      revised := Revise(x, y);
    }

    /**
     * One turn of the `ac3` loop: revise the front arc, answer False if that
     * empties x's domain, and otherwise queue the arcs into x when x changed.
     */
    method Turn(queue: seq<Arc>, left: nat, ghost target: (Ac3Result, Domains)) returns (stop: Option<Ac3Result>, next: seq<Arc>)
      requires Valid() && NodeConsistent(domains) && ArcsOk(crossword, queue) && queue != [] && left > 0
      requires Ac3Run(crossword, domains, queue, left) == target
      modifies this
      ensures Valid() && NodeConsistent(domains) && ArcsOk(crossword, next)
      ensures stop.None? ==> Ac3Run(crossword, domains, next, left - 1) == target
      ensures stop.Some? ==> (stop.value, domains) == target
    {
      var x, y := queue[0].0, queue[0].1;
      var revised;
      revised, next := ReviseFront(queue);
      stop := None;
      if revised {
        if |domains[x]| == 0 {
          assert false;
          return Some(Finished(false)), next;
        }
        next := RequeueArcs(next, x, y, Neighbors(crossword, x));
      }
      Ac3Step(crossword, old(domains), queue, left, next);
    }

    /**
     * `ac3(arcs)`: the worklist loop, run for at most fuel iterations; proved
     * to return and leave what Ac3Run says. Python iterates over the set
     * `neighbors(X)` without Y; the model goes through the neighbours in
     * declaration order and skips Y.
     */
    method AC3(arcs: Option<seq<Arc>>, fuel: nat) returns (result: Ac3Result)
      requires Valid() && NodeConsistent(domains)
      requires arcs.Some? ==> ArcsOk(crossword, arcs.value)
      modifies this
      ensures (result, domains) ==
        Ac3Run(crossword, old(domains), if arcs.None? then AllArcs(crossword) else arcs.value, fuel)
      ensures Valid() && NodeConsistent(domains)
    {
      var queue: seq<Arc>;
      if arcs.None? {
        queue := InitialArcs(crossword);
      } else {
        queue := arcs.value;
      }
      ghost var target := Ac3Run(crossword, domains, queue, fuel);
      var left := fuel;
      while queue != []
        invariant Valid() && NodeConsistent(domains) && ArcsOk(crossword, queue)
        invariant Ac3Run(crossword, domains, queue, left) == target
        decreases left
      {
        if left == 0 {
          return Ac3Result.OutOfFuel;
        }
        var stop;
        stop, queue := Turn(queue, left, target);
        if stop.Some? {
          return stop.value;
        }
        var rest := left - 1;
        Ac3Fuel(crossword, domains, queue, left, rest);
        left := rest;
      }
      result := Finished(true);
    }

    /**
     * `assignment_complete`: as many entries as slots, and every slot's value
     * a word rather than a domain list.
     */
    method AssignmentComplete(assignment: Assignment) returns (complete: bool)
      requires WellFormed(crossword) && KeysOk(crossword, assignment)
      ensures complete <==> Complete(crossword, assignment)
    {
      EverySlotKeyed(crossword, assignment);
      if |assignment| != |crossword.variables| {
        return false;
      }
      var vars := crossword.variables;
      for n := 0 to |vars|
        invariant forall k :: 0 <= k < n ==> Get(assignment, vars[k]).Some? && Get(assignment, vars[k]).value.Word?
      {
        var value := Get(assignment, vars[n]).value;
        if !value.Word? {
          return false;
        }
        assert Get(assignment, vars[n]).value.Word?;
      }
      return true;
    }

    /**
     * The revise loop of `consistent` for one assigned slot x: revise x
     * against each neighbour in turn, stopping at the first False.
     */
    method ReviseNeighbors(x: Variable, ys: seq<Variable>) returns (ok: bool)
      requires Valid() && NodeConsistent(domains) && x in crossword.variables
      requires forall y :: y in ys ==> y in crossword.variables && y != x
      modifies this
      ensures (ok, domains) == ReviseEach(crossword, old(domains), x, ys)
      ensures Valid() && NodeConsistent(domains)
    {
      for t := 0 to |ys|
        invariant Valid() && NodeConsistent(domains)
        invariant ReviseEach(crossword, old(domains), x, ys) == ReviseEach(crossword, domains, x, ys[t..])
      {
        assert ys[t..][1..] == ys[t + 1..];
        var revised := Revise(x, ys[t]);
        if !revised {
          return false;
        }
      }
      return true;
    }

    /** The revise loop of `consistent`: each assigned slot against its neighbours. */
    method ReviseAssignment(assignment: Assignment) returns (ok: bool)
      requires Valid() && NodeConsistent(domains) && KeysOk(crossword, assignment)
      modifies this
      ensures (ok, domains) == ReviseAssigned(crossword, old(domains), assignment)
      ensures Valid() && NodeConsistent(domains)
    {
      for s := 0 to |assignment|
        invariant Valid() && NodeConsistent(domains)
        invariant ReviseAssigned(crossword, old(domains), assignment) == ReviseAssigned(crossword, domains, assignment[s..])
      {
        assert assignment[s..][1..] == assignment[s + 1..];
        var x := assignment[s].key;
        var each := ReviseNeighbors(x, Neighbors(crossword, x));
        if !each {
          return false;
        }
      }
      return true;
    }

    /**
     * The last loop of `consistent`: for each assigned slot and each of its
     * neighbours that holds a word, the two words carry the same letter in
     * the shared cell. The `type(...) == str` test always passes here, since
     * `set(words)` has already rejected domain lists.
     */
    static method AgreeCheck(p: Crossword, assignment: Assignment) returns (ok: bool)
      requires WellFormed(p) && KeysOk(p, assignment) && AllWords(assignment) && LengthsFit(assignment)
      ensures ok == Agree(p, assignment)
    {
      var s := 0;
      while s < |assignment|
        invariant s <= |assignment|
        invariant forall r :: 0 <= r < s ==> AgreeAt(p, assignment, r)
      {
        ok := WordAgrees(p, assignment, s);
        if !ok {
          return false;
        }
        var next := s + 1;
        AgreeStep(p, assignment, s, next);
        s := next;
      }
      return true;
    }

    /**
     * The inner loop of the overlap check in `consistent`: the word of entry
     * s against the word of each assigned neighbour, at their overlap.
     */
    static method WordAgrees(p: Crossword, a: Assignment, s: nat) returns (ok: bool)
      requires WellFormed(p) && KeysOk(p, a) && AllWords(a) && LengthsFit(a) && s < |a|
      ensures ok == AgreeAt(p, a, s)
    {
      var x, word := a[s].key, a[s].val.word;
      var neighbors := Neighbors(p, x);
      for t := 0 to |neighbors|
        invariant forall n :: n in neighbors[..t] && Get(a, n).Some? ==>
          Matches(word, OverlapOf(p, x, n).value.0, Get(a, n).value.word, OverlapOf(p, x, n).value.1)
      {
        var n := neighbors[t];
        assert neighbors[..t + 1] == neighbors[..t] + [n];
        var (i, j) := OverlapOf(p, x, n).value;
        var other := Get(a, n);
        if other.Some? && other.value.Word? {
          ghost var k :| 0 <= k < |a| && a[k].key == n && a[k].val == other.value;
          if other.value.word[j] != word[i] {
            assert !AgreeAt(p, a, s);
            return false;
          }
        }
      }
      assert neighbors[..|neighbors|] == neighbors;
      forall t | 0 <= t < |a|
        ensures Get(a, a[t].key) == Some(a[t].val)
      {
        GetEntry(a, t);
      }
      return true;
    }

    /**
     * The length test of `consistent`: every value's `len` is its slot's
     * length. The inner loop runs once per entry and tests the same pair.
     */
    static method LengthCheck(assignment: Assignment) returns (fit: bool)
      ensures fit == LengthsFit(assignment)
    {
      for s := 0 to |assignment|
        invariant forall k :: 0 <= k < s ==> SizeOf(assignment[k].val) == assignment[k].key.length
      {
        var x, value := assignment[s].key, assignment[s].val;
        for i := 0 to |assignment|
          invariant i > 0 ==> SizeOf(value) == x.length
        {
          if SizeOf(value) != x.length {
            return false;
          }
        }
      }
      return true;
    }

    /**
     * `consistent(assignment)`: the length test (its inner loop runs once per
     * entry), `set(words)` (TypeError on a domain list), distinct words, the
     * revisions, then agreement at every crossing.
     */
    method Consistent(assignment: Assignment) returns (result: Outcome<bool>)
      requires Valid() && NodeConsistent(domains) && KeysOk(crossword, assignment)
      modifies this
      ensures (result, domains) == ConsistentCheck(crossword, old(domains), assignment)
      ensures Valid() && NodeConsistent(domains)
    {
      var fit := LengthCheck(assignment);
      if !fit {
        return Return(false);
      }
      if !AllWords(assignment) {
        return Raise(TypeError);
      }
      if !DistinctWords(assignment) {
        return Return(false);
      }
      var revised := ReviseAssignment(assignment);
      if !revised {
        return Return(false);
      }
      var agree := AgreeCheck(crossword, assignment);
      return Return(agree);
    }

    /**
     * `select_unassigned_variable`: among the unassigned slots, in
     * declaration order, the first one with the fewest remaining words and,
     * among those, the most neighbours; None when every slot is assigned.
     */
    method SelectUnassignedVariable(assignment: Assignment) returns (best: Option<Variable>)
      requires Valid()
      ensures best.None? <==> Unassigned(crossword, assignment) == []
      ensures best.Some? ==> (exists k :: FirstMrv(crossword, domains, Unassigned(crossword, assignment), k) &&
                                          Unassigned(crossword, assignment)[k] == best.value)
    {
      var available := Unassigned(crossword, assignment);
      best := MostConstrained(crossword, domains, available);
    }

    /** The loop of `select_unassigned_variable` over the available slots; `best` starts at infinity. */
    static method MostConstrained(p: Crossword, d: Domains, available: seq<Variable>) returns (best: Option<Variable>)
      requires forall v :: v in available ==> v in d
      ensures best.None? <==> available == []
      ensures best.Some? ==> (exists k :: FirstMrv(p, d, available, k) && available[k] == best.value)
    {
      best := None;
      var bestSize: Option<int> := None;
      ghost var bi := 0;
      for n := 0 to |available|
        invariant best.None? <==> n == 0
        invariant bestSize.None? <==> n == 0
        invariant n > 0 ==> (FirstMrv(p, d, available[..n], bi) &&
                             best == Some(available[bi]) && bestSize == Some(|d[available[bi]]|))
      {
        var v := available[n];
        assert available[..n + 1] == available[..n] + [v];
        var size := |d[v]|;
        if bestSize.None? || size < bestSize.value {
          bestSize, best, bi := Some(size), Some(v), n;
        } else if size == bestSize.value {
          var bestNeighbors, currentNeighbors := Neighbors(p, best.value), Neighbors(p, v);
          if |bestNeighbors| < |currentNeighbors| {
            best, bi := Some(v), n;
          }
        }
      }
      assert available[..|available|] == available;
    }

    /**
     * `order_domain_values(var, assignment)`: the words of var's domain sorted,
     * stably, by how many unassigned neighbours still hold the same word.
     */
    method OrderDomainValues(v: Variable, assignment: Assignment) returns (order: seq<string>)
      requires Valid() && v in crossword.variables
      ensures order == SortBy(domains[v], ConstraintKey(domains, Filter(Neighbors(crossword, v), NotIn(Keys(assignment)))))
      ensures multiset(order) == multiset(domains[v])
      ensures forall s, t :: 0 <= s < t < |order| ==>
        CountHolding(domains, Filter(Neighbors(crossword, v), NotIn(Keys(assignment))), order[s]) <=
        CountHolding(domains, Filter(Neighbors(crossword, v), NotIn(Keys(assignment))), order[t])
    {
      var neighbors := Neighbors(crossword, v);
      var available := Filter(neighbors, NotIn(Keys(assignment)));
      var varDomain := domains[v];
      var raw := RawCounts(domains, available, varDomain);
      SortByAgree(varDomain, RawKey(raw), ConstraintKey(domains, available));
      order := SortBy(varDomain, RawKey(raw));
      SortByPermutes(varDomain, ConstraintKey(domains, available));
      SortBySorted(varDomain, ConstraintKey(domains, available));
    }

    /** The outer loop of `order_domain_values`: the dict from each word of the domain to its count. */
    static method RawCounts(d: Domains, available: seq<Variable>, varDomain: seq<string>) returns (raw: map<string, nat>)
      requires forall n :: n in available ==> n in d
      ensures forall w :: w in raw <==> w in varDomain
      ensures forall w :: w in raw ==> raw[w] == CountHolding(d, available, w)
    {
      raw := map[];
      for k := 0 to |varDomain|
        invariant forall w :: w in raw <==> w in varDomain[..k]
        invariant forall w :: w in raw ==> raw[w] == CountHolding(d, available, w)
      {
        var word := varDomain[k];
        assert varDomain[..k + 1] == varDomain[..k] + [word];
        var count := CountConstraints(d, available, word);
        raw := raw[word := count];
      }
      assert varDomain[..|varDomain|] == varDomain;
    }

    /** The inner loop of `order_domain_values`: the neighbours whose domain holds the word. */
    static method CountConstraints(d: Domains, available: seq<Variable>, word: string) returns (count: nat)
      requires forall n :: n in available ==> n in d
      ensures count == CountHolding(d, available, word)
    {
      count := 0;
      for t := 0 to |available|
        invariant count == CountHolding(d, available[..t], word)
      {
        assert available[..t + 1][..t] == available[..t];
        if word in d[available[t]] {
          count := count + 1;
        }
      }
      assert available[..|available|] == available;
    }

    /**
     * The inference step of `backtrack`: `assignment[neighbor] = domains[neighbor]`
     * for each neighbour, so each neighbour's entry becomes its domain list,
     * replacing a word it may have held.
     */
    static method StoreDomains(p: Crossword, d: Domains, assignment: Assignment, neighbors: seq<Variable>) returns (stored: Assignment)
      requires AssignmentOk(p, assignment)
      requires forall n :: n in neighbors ==> n in p.variables && n in d
      ensures AssignmentOk(p, stored)
      ensures forall u :: Get(stored, u) == if u in neighbors then Some(Dom(d[u])) else Get(assignment, u)
      ensures forall k :: 0 <= k < |stored| && stored[k].key !in neighbors ==> stored[k] in assignment
    {
      stored := assignment;
      var t := 0;
      while t < |neighbors|
        invariant t <= |neighbors|
        invariant AssignmentOk(p, stored)
        invariant forall u :: Get(stored, u) == if u in neighbors[..t] then Some(Dom(d[u])) else Get(assignment, u)
        invariant forall k :: 0 <= k < |stored| && stored[k].key !in neighbors[..t] ==> stored[k] in assignment
      {
        var n := neighbors[t];
        var next := t + 1;
        StoreGetStep(d, assignment, stored, neighbors, t, next);
        StoreKeepStep(d, assignment, stored, neighbors, t, next);
        stored := Put(stored, n, Dom(d[n]));
        t := next;
      }
      assert neighbors[..|neighbors|] == neighbors;
    }

    /**
     * The undo step of `backtrack`: `assignment.pop(neighbor)` for each
     * neighbour; None where a pop raises KeyError, because the key is
     * missing or was popped earlier in the same loop.
     */
    static method DropAll(assignment: Assignment, neighbors: seq<Variable>) returns (dropped: Option<Assignment>)
      requires DistinctKeys(assignment)
      ensures dropped.Some? <==> forall t :: 0 <= t < |neighbors| ==> neighbors[t] in Keys(assignment) && neighbors[t] !in neighbors[..t]
      ensures dropped.Some? ==> DistinctKeys(dropped.value) && Keys(dropped.value) == Keys(assignment) - set n | n in neighbors
      ensures dropped.Some? ==> forall k :: 0 <= k < |dropped.value| ==>
        dropped.value[k] in assignment && dropped.value[k].key !in neighbors
    {
      var current := assignment;
      for t := 0 to |neighbors|
        invariant DistinctKeys(current) && Keys(current) == Keys(assignment) - set n | n in neighbors[..t]
        invariant forall k :: 0 <= k < |current| ==> current[k] in assignment && current[k].key !in neighbors[..t]
        invariant forall s :: 0 <= s < t ==> neighbors[s] in Keys(assignment) && neighbors[s] !in neighbors[..s]
      {
        var n := neighbors[t];
        assert neighbors[..t + 1] == neighbors[..t] + [n];
        if n !in Keys(current) {
          return None;
        }
        current := Pop(current, n);
      }
      assert neighbors[..|neighbors|] == neighbors;
      return Some(current);
    }

    /**
     * `backtrack(assignment)`, with the recursion depth bounded by fuel. The
     * dict the caller passes is updated in place (domain lists stored for the
     * neighbours, then popped), so the method returns it as `after` beside the
     * result; the caller's `new_assignment.pop(var)` acts on that dict.
     */
    method Backtrack(assignment: Assignment, fuel: nat) returns (result: Search, after: Assignment)
      requires Valid() && NodeConsistent(domains) && AssignmentOk(crossword, assignment)
      modifies this
      ensures Valid() && NodeConsistent(domains) && AssignmentOk(crossword, after)
      ensures Narrower(domains, old(domains))
      ensures result.Solved? ==> Complete(crossword, result.solution) &&
                                 (result.solution == assignment || Solution(crossword, result.solution))
      ensures AllWords(assignment) && result.Failed? ==> result.error == KeyError
      ensures KeepsSolutions(crossword, domains, old(domains))
      ensures result.NoSolution? ==> NoViableExtension(crossword, old(domains), assignment)
      decreases fuel, 1
    {
      after := assignment;
      var stop, choice := Choose(assignment, fuel);
      if stop.Some? {
        return stop.value, after;
      }
      var v := choice.value;
      var words := CandidateWords(v, assignment);
      var flag := false;
      var neighbors: seq<Variable> := [];
      for k := 0 to |words|
        invariant Valid() && NodeConsistent(domains) && Narrower(domains, old(domains))
        invariant AssignmentOk(crossword, after)
        invariant AllWords(assignment) ==> AllWords(after)
        invariant forall n :: n in neighbors ==> n in crossword.variables
        invariant KeepsSolutions(crossword, domains, old(domains)) && Extends(assignment, after)
        invariant ExcludedUpTo(crossword, old(domains), assignment, v, words, k)
      {
        ghost var d0, a0 := domains, after;
        stop, after, flag, neighbors := TryWord(v, words[k], after, flag, neighbors, fuel);
        NarrowerTrans(domains, d0, old(domains));
        KeepsTrans(crossword, domains, d0, old(domains));
        if stop.Some? {
          return stop.value, after;
        }
        ExtendsTrans(assignment, a0, after);
        ExcludesWeaken(crossword, old(domains), d0, assignment, a0, v, words[k]);
        ExcludedStep(crossword, old(domains), assignment, v, words, k);
      }
      AllExcluded(crossword, old(domains), assignment, v, words);
      return NoSolution, after;
    }

    /**
     * The opening of `backtrack`: stop with the assignment when it is
     * complete, or (in this model) when the fuel is spent; otherwise select
     * the variable to assign next. A None variable ends in KeyError,
     * since `order_domain_values(None, ...)` looks up the overlaps of None.
     */
    method Choose(assignment: Assignment, fuel: nat) returns (stop: Option<Search>, choice: Option<Variable>)
      requires Valid() && NodeConsistent(domains) && AssignmentOk(crossword, assignment)
      ensures stop.Some? ==> (stop.value == Solved(assignment) && Complete(crossword, assignment)) ||
                             stop.value == Search.OutOfFuel || stop.value == Failed(KeyError)
      ensures stop.Some? <==> Complete(crossword, assignment) || fuel == 0 || Unassigned(crossword, assignment) == []
      ensures stop.None? ==> choice.Some? && choice.value in crossword.variables
      ensures stop.None? ==> (exists k :: FirstMrv(crossword, domains, Unassigned(crossword, assignment), k) &&
                                          Unassigned(crossword, assignment)[k] == choice.value)
    {
      choice := None;
      var complete := AssignmentComplete(assignment);
      if complete {
        return Some(Solved(assignment)), choice;
      }
      if fuel == 0 {
        return Some(Search.OutOfFuel), choice;
      }
      choice := SelectUnassignedVariable(assignment);
      if choice.None? {
        return Some(Failed(KeyError)), choice;
      }
      assert choice.value in crossword.variables;
      stop := None;
    }

    /** The words `backtrack` tries for var, in `order_domain_values` order; all from the word list. */
    method CandidateWords(v: Variable, assignment: Assignment) returns (words: seq<string>)
      requires Valid() && v in crossword.variables
      ensures words == SortBy(domains[v], ConstraintKey(domains, Filter(Neighbors(crossword, v), NotIn(Keys(assignment)))))
      ensures forall k :: 0 <= k < |words| ==> words[k] in crossword.words
      ensures multiset(words) == multiset(domains[v])
    {
      words := OrderDomainValues(v, assignment);
      forall k | 0 <= k < |words|
        ensures words[k] in crossword.words
      {
        assert words[k] in multiset(words);
        assert words[k] in domains[v];
      }
    }

    /**
     * One pass of the loop in `backtrack`: assign the word to var in a copy
     * of the current dict and, on a consistent copy, infer and recurse on the
     * copy; then pop var from the copy and, once inferences were stored, pop
     * the neighbours from the current dict. `stop` is what `backtrack`
     * returns when the pass ends it.
     */
    method TryWord(v: Variable, word: string, current: Assignment, flag0: bool, neighbors0: seq<Variable>, fuel: nat)
      returns (stop: Option<Search>, after: Assignment, flag: bool, neighbors: seq<Variable>)
      requires Valid() && NodeConsistent(domains) && AssignmentOk(crossword, current)
      requires v in crossword.variables && word in crossword.words && fuel > 0
      requires forall n :: n in neighbors0 ==> n in crossword.variables
      modifies this
      ensures Valid() && NodeConsistent(domains) && Narrower(domains, old(domains))
      ensures AssignmentOk(crossword, after)
      ensures forall n :: n in neighbors ==> n in crossword.variables
      ensures stop.None? && AllWords(current) ==> AllWords(after)
      ensures stop.Some? && stop.value.Solved? ==>
        Complete(crossword, stop.value.solution) && Solution(crossword, stop.value.solution)
      ensures stop.Some? && stop.value.Failed? && AllWords(current) ==> stop.value.error == KeyError
      ensures KeepsSolutions(crossword, domains, old(domains))
      ensures stop.Some? ==> !stop.value.NoSolution?
      ensures stop.None? ==> Extends(current, after) && Excludes(crossword, old(domains), current, v, word)
      decreases fuel, 0
    {
      var go, newAssignment;
      stop, go, newAssignment, after, flag, neighbors := Infer(v, word, current, flag0, neighbors0, fuel);
      if stop.Some? {
        return;
      }
      if go {
        ghost var d2 := domains;
        var found;
        found, newAssignment := Backtrack(newAssignment, fuel - 1);
        NarrowerTrans(domains, d2, old(domains));
        KeepsTrans(crossword, domains, d2, old(domains));
        if !found.NoSolution? {
          return Some(found), after, flag, neighbors;
        }
        ExcludesFromSearch(crossword, old(domains), d2, current, v, word);
      }
      stop, after := Undo(crossword, v, newAssignment, after, flag, neighbors);
    }

    /**
     * The undo step after a pass that found nothing: `new_assignment.pop(var)`
     * and, when the flag is set, one pop per neighbour from the current dict.
     * Each missing key raises KeyError.
     */
    static method Undo(p: Crossword, v: Variable, newAssignment: Assignment, current: Assignment, flag: bool, neighbors: seq<Variable>)
      returns (stop: Option<Search>, after: Assignment)
      requires AssignmentOk(p, current)
      ensures AssignmentOk(p, after)
      ensures stop.Some? ==> stop.value == Failed(KeyError)
      ensures stop.None? <==>
        (v in Keys(newAssignment) &&
         (flag ==> forall t :: 0 <= t < |neighbors| ==> neighbors[t] in Keys(current) && neighbors[t] !in neighbors[..t]))
      ensures stop.None? && !flag ==> after == current
      ensures stop.None? && flag ==> Keys(after) == Keys(current) - set n | n in neighbors
      ensures stop.None? && flag && WordsOutside(current, neighbors) ==> AllWords(after)
      ensures stop.None? && flag ==> forall k :: 0 <= k < |after| ==> after[k] in current && after[k].key !in neighbors
    {
      after := current;
      if v !in Keys(newAssignment) {
        return Some(Failed(KeyError)), after;
      }
      stop := None;
      if flag {
        var dropped := DropAll(current, neighbors);
        if dropped.None? {
          return Some(Failed(KeyError)), after;
        }
        after := dropped.value;
      }
    }

    /**
     * The first half of a pass: `new_assignment` is a copy of the current
     * dict with var set to the word; when it is consistent, `ac3` runs from
     * the arcs (var, neighbour), and on success each neighbour's domain is
     * stored in the current dict and the flag is set. `go` says the copy was
     * consistent and the search recurses on it.
     */
    method Infer(v: Variable, word: string, current: Assignment, flag0: bool, neighbors0: seq<Variable>, fuel: nat)
      returns (stop: Option<Search>, go: bool, newAssignment: Assignment, after: Assignment, flag: bool, neighbors: seq<Variable>)
      requires Valid() && NodeConsistent(domains) && AssignmentOk(crossword, current)
      requires v in crossword.variables && word in crossword.words
      requires forall n :: n in neighbors0 ==> n in crossword.variables
      modifies this
      ensures Valid() && NodeConsistent(domains) && Narrower(domains, old(domains))
      ensures newAssignment == Put(current, v, Word(word))
      ensures AssignmentOk(crossword, after) && AssignmentOk(crossword, newAssignment)
      ensures forall n :: n in neighbors ==> n in crossword.variables
      ensures stop.Some? ==> stop.value == Search.OutOfFuel || (stop.value.Failed? && !AllWords(current))
      ensures go ==> Solution(crossword, newAssignment)
      ensures AllWords(current) && flag ==> WordsOutside(after, neighbors)
      ensures !flag ==> !flag0 && after == current
      ensures KeptOutside(after, current, neighbors)
      ensures KeepsSolutions(crossword, domains, old(domains))
      ensures stop.None? && !go ==> Excludes(crossword, old(domains), current, v, word)
    {
      after, flag, neighbors := current, flag0, neighbors0;
      newAssignment := Put(after, v, Word(word));
      PutWordOk(crossword, after, v, word);
      ghost var d0 := domains;
      ConsistentCheckOk(crossword, d0, newAssignment);
      ConsistentKeepsSolutions(crossword, d0, newAssignment);
      var consistent := Consistent(newAssignment);
      NarrowerTrans(domains, d0, old(domains));
      go := false;
      if consistent.Raise? {
        return Some(Failed(consistent.error)), go, newAssignment, after, flag, neighbors;
      }
      stop := None;
      if !consistent.value {
        ConsistentRejects(crossword, d0, current, v, word);
        return;
      }
      ghost var d1 := domains;
      stop, after, flag, neighbors := Inference(v, after, flag, fuel);
      NarrowerTrans(domains, d1, old(domains));
      KeepsTrans(crossword, domains, d1, old(domains));
      go := stop.None?;
    }

    /**
     * The inference inside a pass: `ac3` from the arcs (var, neighbour); on
     * success each neighbour's domain is stored in the current dict and the
     * flag is set.
     */
    method Inference(v: Variable, current: Assignment, flag0: bool, fuel: nat)
      returns (stop: Option<Search>, after: Assignment, flag: bool, neighbors: seq<Variable>)
      requires Valid() && NodeConsistent(domains) && AssignmentOk(crossword, current)
      requires v in crossword.variables
      modifies this
      ensures Valid() && NodeConsistent(domains) && Narrower(domains, old(domains))
      ensures neighbors == Neighbors(crossword, v)
      ensures AssignmentOk(crossword, after)
      ensures stop.Some? ==> stop.value == Search.OutOfFuel
      ensures AllWords(current) && flag ==> WordsOutside(after, neighbors)
      ensures !flag ==> !flag0 && after == current
      ensures KeptOutside(after, current, neighbors)
      ensures KeepsSolutions(crossword, domains, old(domains))
    {
      after, flag := current, flag0;
      neighbors := Neighbors(crossword, v);
      ghost var d1 := domains;
      Ac3RunOk(crossword, d1, ArcsTo(v, neighbors), fuel);
      Ac3KeepsSolutions(crossword, d1, ArcsTo(v, neighbors), fuel);
      var inference := AC3(Some(ArcsTo(v, neighbors)), fuel);
      if inference.OutOfFuel? {
        return Some(Search.OutOfFuel), after, flag, neighbors;
      }
      if inference.consistent {
        flag := true;
        after := StoreDomains(crossword, domains, after, neighbors);
      }
      stop := None;
    }

    /**
     * `solve()`: node consistency, then `ac3()` (its answer is ignored), then
     * backtracking from the empty assignment.
     */
    method Solve(fuel: nat) returns (result: Search)
      requires Valid()
      modifies this
      ensures Valid() && NodeConsistent(domains)
      ensures result.Solved? ==> Complete(crossword, result.solution) && Solution(crossword, result.solution)
      ensures result.Failed? ==> result.error == KeyError
      ensures result.NoSolution? ==> forall s :: Complete(crossword, s) && Solution(crossword, s) ==> !WordsIn(s, old(domains))
    {
      EnforceNodeConsistency();
      NodeFilteredKeeps(crossword, old(domains));
      ghost var d1 := domains;
      Ac3KeepsSolutions(crossword, d1, AllArcs(crossword), fuel);
      var arcConsistent := AC3(None, fuel);
      if arcConsistent.OutOfFuel? {
        return Search.OutOfFuel;
      }
      KeepsTrans(crossword, domains, d1, old(domains));
      ghost var d2 := domains;
      var assignment;
      result, assignment := Backtrack([], fuel);
      if result.NoSolution? {
        NoneViable(crossword, old(domains), d2);
      }
    }
  }
}
