/**
 * What the crossword solver's steps compute, written as functions over
 * values: the pruning done by `revise`, the run of the `ac3` worklist, the
 * outcome of `consistent`, the order of `order_domain_values`, the letters
 * of `letter_grid`, and the properties these have.
 */
module CrosswordLogic {
  import opened Wrappers
  import opened CrosswordProblem
  import opened CrosswordAssignment

  /** The candidate words of each slot. */
  type Domains = map<Variable, seq<string>>

  /** An arc (x, y): make x consistent with y. */
  type Arc = (Variable, Variable)

  /** The elements of s that satisfy keep, in order. */
  function Filter<T(!new)>(s: seq<T>, keep: T -> bool): (r: seq<T>)
    ensures forall x :: x in r <==> x in s && keep(x)
    ensures NoDup(s) ==> NoDup(r)
  {
    if s == [] then []
    else
      var front, x := s[..|s| - 1], s[|s| - 1];
      assert s == front + [x];
      Filter(front, keep) + (if keep(x) then [x] else [])
  }

  /** A filtered list is non-empty exactly when some element passes the test. */
  lemma {:induction false} FilterNonEmpty<T(!new)>(s: seq<T>, keep: T -> bool)
    ensures Filter(s, keep) != [] <==> exists x :: x in s && keep(x)
  {
    if s != [] {
      var front, x := s[..|s| - 1], s[|s| - 1];
      assert s == front + [x];
      FilterNonEmpty(front, keep);
      if Filter(front, keep) != [] {
        var y :| y in front && keep(y);
        assert y in s;
      }
    }
  }

  /** Filtering by two tests that agree on every element gives the same list. */
  lemma {:induction false} FilterAgree<T(!new)>(s: seq<T>, k1: T -> bool, k2: T -> bool)
    requires forall x :: x in s ==> k1(x) == k2(x)
    ensures Filter(s, k1) == Filter(s, k2)
  {
    if s != [] {
      assert s == s[..|s| - 1] + [s[|s| - 1]];
      FilterAgree(s[..|s| - 1], k1, k2);
    }
  }

  // ---------------------------------------------------------------------------
  // Domains

  /** Every slot has a domain of distinct words, all from the word list. */
  predicate DomainsOk(p: Crossword, d: Domains) {
    (forall v :: v in d ==> v in p.variables) && (forall v :: v in p.variables ==> v in d) &&
    forall v :: v in d ==> NoDup(d[v]) && forall w :: w in d[v] ==> w in p.words
  }

  /** Every word left in a slot's domain has the slot's length. */
  predicate NodeConsistent(d: Domains) {
    forall v :: v in d ==> forall w :: w in d[v] ==> |w| == v.length
  }

  /** d2 has the slots of d1 and only drops words from their domains. */
  predicate Narrower(d2: Domains, d1: Domains) {
    d2.Keys == d1.Keys && forall v :: v in d1 ==> forall w :: w in d2[v] ==> w in d1[v]
  }

  function HasLength(n: int): string -> bool {
    w => |w| == n
  }

  /**
   * The domains `enforce_node_consistency` leaves: each slot keeps exactly the
   * words of its length.
   */
  function NodeFiltered(d: Domains): Domains {
    map v | v in d :: Filter(d[v], HasLength(v.length))
  }

  /**
   * Node consistency keeps exactly the words of the right length: every slot
   * keeps its place, every remaining word fits, every fitting word stays.
   */
  lemma NodeFilteredOk(p: Crossword, d: Domains)
    requires DomainsOk(p, d)
    ensures NodeConsistent(NodeFiltered(d)) && Narrower(NodeFiltered(d), d)
    ensures forall v, w :: v in d && w in d[v] && |w| == v.length ==> w in NodeFiltered(d)[v]
    ensures DomainsOk(p, NodeFiltered(d))
  {
  }

  /** The domains once the slots of vs have been made node consistent. */
  function NodeFilteredUpTo(d: Domains, vs: seq<Variable>): Domains {
    map v | v in d :: if v in vs then Filter(d[v], HasLength(v.length)) else d[v]
  }

  lemma NodeFilteredNone(d: Domains)
    ensures NodeFilteredUpTo(d, []) == d
  {
  }

  lemma NodeFilteredStep(d: Domains, vs: seq<Variable>, n: int)
    requires 0 <= n < |vs| && vs[n] in d && vs[n] !in vs[..n]
    ensures NodeFilteredUpTo(d, vs[..n])[vs[n]] == d[vs[n]]
    ensures NodeFilteredUpTo(d, vs[..n + 1]) ==
      NodeFilteredUpTo(d, vs[..n])[vs[n] := Filter(d[vs[n]], HasLength(vs[n].length))]
  {
    assert vs[..n + 1] == vs[..n] + [vs[n]];
  }

  lemma NodeFilteredAll(d: Domains, vs: seq<Variable>)
    requires forall v :: v in d ==> v in vs
    ensures NodeFilteredUpTo(d, vs) == NodeFiltered(d)
  {
  }

  /**
   * One step of the inner loop: with the first k words of a list of distinct
   * words filtered, `remove` of word k when it does not fit (or nothing when
   * it does) leaves the first k + 1 filtered.
   */
  lemma NodeRemoveStep(copy: seq<string>, k: int, n: int)
    requires NoDup(copy) && 0 <= k < |copy|
    ensures Filter(copy[..k + 1], HasLength(n)) + copy[k + 1..] ==
      if |copy[k]| == n then Filter(copy[..k], HasLength(n)) + copy[k..]
      else RemoveFirst(Filter(copy[..k], HasLength(n)) + copy[k..], copy[k])
  {
    var c, kept, rest := copy[k], Filter(copy[..k], HasLength(n)), copy[k + 1..];
    assert copy[..k + 1][..k] == copy[..k];
    assert copy[..k + 1][k] == c;
    assert Filter(copy[..k + 1], HasLength(n)) == kept + (if |c| == n then [c] else []);
    assert copy[k..] == [c] + rest;
    assert kept + copy[k..] == kept + [c] + rest;
    if n != |c| {
      assert c !in copy[..k] by {
        forall m | 0 <= m < k ensures copy[..k][m] != c {
          assert copy[..k][m] == copy[m];
        }
      }
      RemoveFirstAfter(kept, c, rest);
      assert kept + [] == kept;
    }
  }

  // ---------------------------------------------------------------------------
  // revise

  /** Every word of ws has a letter at index i. */
  predicate IndexInAll(ws: seq<string>, i: int) {
    forall k :: 0 <= k < |ws| ==> 0 <= i < |ws[k]|
  }

  /** Letter i of w and letter j of v exist and are equal. */
  predicate Matches(w: string, i: int, v: string, j: int) {
    0 <= i < |w| && 0 <= j < |v| && w[i] == v[j]
  }

  /** Some word of dy agrees with the word at overlap (i, j). */
  function SupportedBy(i: int, dy: seq<string>, j: int): string -> bool {
    w => exists v :: v in dy && Matches(w, i, v, j)
  }

  /** The words of dx that some word of dy supports at overlap (i, j). */
  function Prune(dx: seq<string>, i: int, dy: seq<string>, j: int): seq<string> {
    Filter(dx, SupportedBy(i, dy, j))
  }

  /**
   * `revise(x, y)`: the flag it returns and the domains it leaves. The flag
   * is set by any agreeing pair, so it reports that x's new domain is not
   * empty, not that a word was removed.
   */
  function Revision(p: Crossword, d: Domains, x: Variable, y: Variable): (bool, Domains)
    requires x in d && y in d && x != y
  {
    match OverlapOf(p, x, y)
    case None => (false, d)
    case Some((i, j)) =>
      var kept := Prune(d[x], i, d[y], j);
      (kept != [], d[x := kept])
  }

  /** `revise(x, y)` only narrows, and a True flag leaves x a word. */
  lemma RevisionNarrows(p: Crossword, d: Domains, x: Variable, y: Variable)
    requires x in d && y in d && x != y
    ensures Narrower(Revision(p, d, x, y).1, d)
    ensures Revision(p, d, x, y).0 ==> Revision(p, d, x, y).1[x] != []
  {
  }

  /**
   * What `revise(x, y)` leaves: only x's domain changes, it keeps exactly the
   * words that agree with some word of y's domain at the overlap, and the
   * flag says that the overlap exists and the new domain is not empty.
   */
  lemma RevisionOk(p: Crossword, d: Domains, x: Variable, y: Variable)
    requires x in d && y in d && x != y
    ensures Narrower(Revision(p, d, x, y).1, d)
    ensures forall v :: v in d && v != x ==> Revision(p, d, x, y).1[v] == d[v]
    ensures Revision(p, d, x, y).0 <==> OverlapOf(p, x, y).Some? && Revision(p, d, x, y).1[x] != []
    ensures OverlapOf(p, x, y).None? ==> Revision(p, d, x, y).1 == d
    ensures OverlapOf(p, x, y).Some? ==>
      forall w :: w in Revision(p, d, x, y).1[x] <==>
        w in d[x] && exists v :: v in d[y] && Matches(w, OverlapOf(p, x, y).value.0, v, OverlapOf(p, x, y).value.1)
    ensures DomainsOk(p, d) ==> DomainsOk(p, Revision(p, d, x, y).1)
    ensures NodeConsistent(d) ==> NodeConsistent(Revision(p, d, x, y).1)
  {
  }

  // ---------------------------------------------------------------------------
  // ac3

  /** Every slot of the puzzle has a domain. */
  predicate HasSlots(p: Crossword, d: Domains) {
    forall v :: v in p.variables ==> v in d
  }

  /** Every queued arc joins two distinct slots of the puzzle. */
  predicate ArcsOk(p: Crossword, q: seq<Arc>) {
    forall a :: a in q ==> a.0 in p.variables && a.1 in p.variables && a.0 != a.1
  }

  /** `list.remove(x)` when x is present: drops the first occurrence. */
  function RemoveFirst<T(==)>(s: seq<T>, x: T): seq<T> {
    if s == [] then []
    else if s[0] == x then s[1..]
    else [s[0]] + RemoveFirst(s[1..], x)
  }

  /** `remove` only takes elements away, and a missing element leaves the list as it is. */
  lemma {:induction false} RemoveFirstOk<T>(s: seq<T>, x: T)
    ensures forall a :: a in RemoveFirst(s, x) ==> a in s
    ensures x !in s ==> RemoveFirst(s, x) == s
  {
    if s != [] && s[0] != x {
      RemoveFirstOk(s[1..], x);
      assert s == [s[0]] + s[1..];
    }
  }

  /** `remove` takes away exactly one occurrence of x and nothing else. */
  lemma {:induction false} RemoveFirstCount<T>(s: seq<T>, x: T)
    ensures multiset(RemoveFirst(s, x)) == multiset(s) - multiset{x}
  {
    if s != [] {
      assert s == [s[0]] + s[1..];
      if s[0] != x {
        RemoveFirstCount(s[1..], x);
      }
    }
  }

  /** Removing an element that first occurs right after xs splices it out. */
  lemma {:induction false} RemoveFirstAfter<T>(xs: seq<T>, y: T, ys: seq<T>)
    requires y !in xs
    ensures RemoveFirst(xs + [y] + ys, y) == xs + ys
  {
    var s := xs + [y] + ys;
    if xs == [] {
      assert s[0] == y && s[1..] == ys;
    } else {
      var h, t := xs[0], xs[1..];
      assert h != y;
      assert s[0] == h && s[1..] == t + [y] + ys;
      RemoveFirstAfter(t, y, ys);
      assert RemoveFirst(s, y) == [h] + (t + ys);
      assert xs + ys == [h] + (t + ys);
    }
  }

  /** The arcs (z, x), z in ns other than y, that `ac3` queues after revising x against y. */
  function Requeue(x: Variable, y: Variable, ns: seq<Variable>): seq<Arc> {
    if ns == [] then []
    else
      var z := ns[|ns| - 1];
      Requeue(x, y, ns[..|ns| - 1]) + (if z != y then [(z, x)] else [])
  }

  /** The requeued arcs are exactly the arcs (z, x) with z in ns other than y. */
  lemma {:induction false} RequeueOk(x: Variable, y: Variable, ns: seq<Variable>)
    ensures forall a :: a in Requeue(x, y, ns) <==> a.1 == x && a.0 in ns && a.0 != y
  {
    if ns != [] {
      var z := ns[|ns| - 1];
      assert ns == ns[..|ns| - 1] + [z];
      RequeueOk(x, y, ns[..|ns| - 1]);
    }
  }

  /** The arcs (x, y), y in ys, that the first loop of `ac3` queues for x. */
  function ArcsFrom(p: Crossword, x: Variable, ys: seq<Variable>): seq<Arc> {
    if ys == [] then []
    else
      var y := ys[|ys| - 1];
      ArcsFrom(p, x, ys[..|ys| - 1]) + (if x != y && OverlapOf(p, x, y).Some? then [(x, y)] else [])
  }

  /** x's arcs are exactly the pairs (x, y), y in ys, of distinct overlapping slots. */
  lemma {:induction false} ArcsFromOk(p: Crossword, x: Variable, ys: seq<Variable>)
    ensures forall a :: a in ArcsFrom(p, x, ys) <==> a.0 == x && a.1 in ys && a.1 != x && OverlapOf(p, x, a.1).Some?
  {
    if ys != [] {
      var init, y := ys[..|ys| - 1], ys[|ys| - 1];
      assert ys == init + [y];
      ArcsFromOk(p, x, init);
    }
  }

  function ArcsUpTo(p: Crossword, xs: seq<Variable>): seq<Arc> {
    if xs == [] then []
    else
      var x := xs[|xs| - 1];
      ArcsUpTo(p, xs[..|xs| - 1]) + ArcsFrom(p, x, p.variables)
  }

  /** The arcs queued for the slots xs are the overlapping pairs whose first slot is in xs. */
  lemma {:induction false} ArcsUpToOk(p: Crossword, xs: seq<Variable>)
    ensures forall a :: a in ArcsUpTo(p, xs) <==>
      a.0 in xs && a.1 in p.variables && a.0 != a.1 && OverlapOf(p, a.0, a.1).Some?
  {
    if xs != [] {
      var init, x := xs[..|xs| - 1], xs[|xs| - 1];
      assert xs == init + [x];
      ArcsUpToOk(p, init);
      ArcsFromOk(p, x, p.variables);
    }
  }

  /** The queue `ac3()` starts from: every ordered pair of distinct overlapping slots. */
  function AllArcs(p: Crossword): (r: seq<Arc>)
    ensures forall a :: a in r <==>
      a.0 in p.variables && a.1 in p.variables && a.0 != a.1 && OverlapOf(p, a.0, a.1).Some?
  {
    ArcsUpToOk(p, p.variables);
    ArcsUpTo(p, p.variables)
  }

  datatype Ac3Result = Finished(consistent: bool) | OutOfFuel

  /**
   * The `ac3` loop run from queue q for at most fuel iterations: the value it
   * returns and the domains it leaves. Each iteration takes the front arc
   * (x, y), removes (x, y) and then (y, x) from the queue, revises x against
   * y and, when `revise` says so, queues (z, x) for the other neighbours z.
   * It never returns False: `revise` returns True only when the revised
   * domain is non-empty, so the check for an empty domain never fires.
   */
  function Ac3Run(p: Crossword, d: Domains, q: seq<Arc>, fuel: nat): (r: (Ac3Result, Domains))
    requires HasSlots(p, d) && ArcsOk(p, q)
    decreases fuel
  {
    if q == [] then (Finished(true), d)
    else if fuel == 0 then (OutOfFuel, d)
    else
      var x, y := q[0].0, q[0].1;
      var q1 := RemoveFirst(RemoveFirst(q, (x, y)), (y, x));
      RemoveFirstOk(q, (x, y));
      RemoveFirstOk(RemoveFirst(q, (x, y)), (y, x));
      RequeueOk(x, y, Neighbors(p, x));
      RevisionNarrows(p, d, x, y);
      var rev := Revision(p, d, x, y);
      if rev.0 then
        if |rev.1[x]| == 0 then (Finished(false), rev.1)
        else Ac3Run(p, rev.1, q1 + Requeue(x, y, Neighbors(p, x)), fuel - 1)
      else Ac3Run(p, rev.1, q1, fuel - 1)
  }

  lemma NarrowerTrans(d3: Domains, d2: Domains, d1: Domains)
    requires Narrower(d3, d2) && Narrower(d2, d1)
    ensures Narrower(d3, d1)
  {
  }

  /** The `ac3` loop only narrows: the same slots, each keeping some of its words. */
  lemma {:induction false} Ac3RunOk(p: Crossword, d: Domains, q: seq<Arc>, fuel: nat)
    requires HasSlots(p, d) && ArcsOk(p, q)
    ensures Narrower(Ac3Run(p, d, q, fuel).1, d)
    decreases fuel
  {
    if q != [] && fuel > 0 {
      var d2, q2 := Ac3Next(p, d, q, fuel);
      Ac3RunOk(p, d2, q2, fuel - 1);
      NarrowerTrans(Ac3Run(p, d2, q2, fuel - 1).1, d2, d);
    }
  }

  /** One turn of the loop leads to a state of the same kind, with one less unit of fuel. */
  lemma Ac3Next(p: Crossword, d: Domains, q: seq<Arc>, fuel: nat) returns (d2: Domains, q2: seq<Arc>)
    requires HasSlots(p, d) && ArcsOk(p, q) && q != [] && fuel > 0
    ensures HasSlots(p, d2) && ArcsOk(p, q2) && Narrower(d2, d)
    ensures d2 == Revision(p, d, q[0].0, q[0].1).1
    ensures Ac3Run(p, d, q, fuel) == Ac3Run(p, d2, q2, fuel - 1)
  {
    var x, y := q[0].0, q[0].1;
    var q1 := RemoveFirst(RemoveFirst(q, (x, y)), (y, x));
    var rev := Revision(p, d, x, y);
    q2 := if rev.0 then q1 + Requeue(x, y, Neighbors(p, x)) else q1;
    Ac3Step(p, d, q, fuel, q2);
    RevisionNarrows(p, d, x, y);
    d2 := rev.1;
  }

  /**
   * `ac3` never returns False: `revise` returns True only when the revised
   * domain is non-empty, so the check for an empty domain never fires.
   */
  lemma {:induction false} Ac3NeverFalse(p: Crossword, d: Domains, q: seq<Arc>, fuel: nat)
    requires HasSlots(p, d) && ArcsOk(p, q)
    ensures Ac3Run(p, d, q, fuel).0 != Finished(false)
    decreases fuel
  {
    if q != [] && fuel > 0 {
      var d2, q2 := Ac3Next(p, d, q, fuel);
      Ac3NeverFalse(p, d2, q2, fuel - 1);
    }
  }

  /** One iteration of the `ac3` loop: from the front arc's revision and the new queue q2, the run goes on. */
  lemma Ac3Step(p: Crossword, d: Domains, q: seq<Arc>, fuel: nat, q2: seq<Arc>)
    requires HasSlots(p, d) && ArcsOk(p, q) && q != [] && fuel > 0
    requires Revision(p, d, q[0].0, q[0].1).0 ==>
      q2 == RemoveFirst(RemoveFirst(q, q[0]), (q[0].1, q[0].0)) + Requeue(q[0].0, q[0].1, Neighbors(p, q[0].0))
    requires !Revision(p, d, q[0].0, q[0].1).0 ==> q2 == RemoveFirst(RemoveFirst(q, q[0]), (q[0].1, q[0].0))
    ensures ArcsOk(p, q2)
    ensures Ac3Run(p, d, q, fuel) == Ac3Run(p, Revision(p, d, q[0].0, q[0].1).1, q2, fuel - 1)
  {
    var x, y := q[0].0, q[0].1;
    RemoveFirstOk(q, (x, y));
    RemoveFirstOk(RemoveFirst(q, (x, y)), (y, x));
    RequeueOk(x, y, Neighbors(p, x));
  }

  /** The same run under two spellings of the same fuel. */
  lemma Ac3Fuel(p: Crossword, d: Domains, q: seq<Arc>, fuel: nat, rest: nat)
    requires HasSlots(p, d) && ArcsOk(p, q) && fuel > 0 && rest == fuel - 1
    ensures Ac3Run(p, d, q, fuel - 1) == Ac3Run(p, d, q, rest)
  {
  }

  /** Slots x and y are arc consistent: every word of x has a partner in y at their overlap. */
  predicate ArcConsistent(p: Crossword, d: Domains, x: Variable, y: Variable)
    requires x in d && y in d
  {
    OverlapOf(p, x, y).Some? ==>
      forall w :: w in d[x] ==> exists v :: v in d[y] && Matches(w, OverlapOf(p, x, y).value.0, v, OverlapOf(p, x, y).value.1)
  }

  // ---------------------------------------------------------------------------
  // consistent

  /** A dict keyed by slots of the puzzle. */
  predicate KeysOk(p: Crossword, a: Assignment) {
    DistinctKeys(a) && forall k :: 0 <= k < |a| ==> a[k].key in p.variables
  }

  /** The assignment's keys are distinct slots and its words come from the word list. */
  predicate AssignmentOk(p: Crossword, a: Assignment) {
    KeysOk(p, a) &&
    (forall k :: 0 <= k < |a| && a[k].val.Word? ==> a[k].val.word in p.words)
  }

  /** `len` of a value: the letters of a word, the words of a domain list. */
  function SizeOf(x: Val): int {
    match x
    case Word(w) => |w|
    case Dom(ws) => |ws|
  }

  predicate AllWords(a: Assignment) {
    forall k :: 0 <= k < |a| ==> a[k].val.Word?
  }

  predicate LengthsFit(a: Assignment) {
    forall k :: 0 <= k < |a| ==> SizeOf(a[k].val) == a[k].key.length
  }

  predicate DistinctWords(a: Assignment)
    requires AllWords(a)
  {
    forall s, t :: 0 <= s < t < |a| ==> a[s].val.word != a[t].val.word
  }

  /** Entry s agrees with every other assigned slot it overlaps, in the shared cell. */
  predicate AgreeAt(p: Crossword, a: Assignment, s: int)
    requires AllWords(a) && 0 <= s < |a|
  {
    forall t :: 0 <= t < |a| && a[s].key != a[t].key && OverlapOf(p, a[s].key, a[t].key).Some? ==>
      Matches(a[s].val.word, OverlapOf(p, a[s].key, a[t].key).value.0,
              a[t].val.word, OverlapOf(p, a[s].key, a[t].key).value.1)
  }

  /** Any two assigned slots that overlap carry the same letter in the shared cell. */
  predicate Agree(p: Crossword, a: Assignment)
    requires AllWords(a)
  {
    forall s :: 0 <= s < |a| ==> AgreeAt(p, a, s)
  }

  /** One more entry checked by the overlap loop of `consistent`. */
  lemma AgreeStep(p: Crossword, a: Assignment, s: nat, next: nat)
    requires AllWords(a) && next == s + 1 <= |a|
    requires forall r :: 0 <= r < s ==> AgreeAt(p, a, r)
    requires AgreeAt(p, a, s)
    ensures forall r :: 0 <= r < next ==> AgreeAt(p, a, r)
  { }

  /** `revise(x, y)` for y in ys, in order, stopping at the first False. */
  function ReviseEach(p: Crossword, d: Domains, x: Variable, ys: seq<Variable>): (bool, Domains)
    requires DomainsOk(p, d) && x in p.variables
    requires forall y :: y in ys ==> y in p.variables && y != x
  {
    if ys == [] then (true, d)
    else
      RevisionOk(p, d, x, ys[0]);
      var rev := Revision(p, d, x, ys[0]);
      if !rev.0 then rev else ReviseEach(p, rev.1, x, ys[1..])
  }

  lemma {:induction false} ReviseEachOk(p: Crossword, d: Domains, x: Variable, ys: seq<Variable>)
    requires DomainsOk(p, d) && x in p.variables
    requires forall y :: y in ys ==> y in p.variables && y != x
    ensures Narrower(ReviseEach(p, d, x, ys).1, d) && DomainsOk(p, ReviseEach(p, d, x, ys).1)
    ensures NodeConsistent(d) ==> NodeConsistent(ReviseEach(p, d, x, ys).1)
  {
    if ys != [] {
      RevisionOk(p, d, x, ys[0]);
      var rev := Revision(p, d, x, ys[0]);
      if rev.0 {
        ReviseEachOk(p, rev.1, x, ys[1..]);
      }
    }
  }

  /** The third loop of `consistent`: revise each assigned slot against its neighbours. */
  function ReviseAssigned(p: Crossword, d: Domains, a: Assignment): (bool, Domains)
    requires DomainsOk(p, d) && forall k :: 0 <= k < |a| ==> a[k].key in p.variables
  {
    if a == [] then (true, d)
    else
      ReviseEachOk(p, d, a[0].key, Neighbors(p, a[0].key));
      var rev := ReviseEach(p, d, a[0].key, Neighbors(p, a[0].key));
      if !rev.0 then rev else ReviseAssigned(p, rev.1, a[1..])
  }

  lemma {:induction false} ReviseAssignedOk(p: Crossword, d: Domains, a: Assignment)
    requires DomainsOk(p, d) && forall k :: 0 <= k < |a| ==> a[k].key in p.variables
    ensures Narrower(ReviseAssigned(p, d, a).1, d) && DomainsOk(p, ReviseAssigned(p, d, a).1)
    ensures NodeConsistent(d) ==> NodeConsistent(ReviseAssigned(p, d, a).1)
  {
    if a != [] {
      ReviseEachOk(p, d, a[0].key, Neighbors(p, a[0].key));
      var rev := ReviseEach(p, d, a[0].key, Neighbors(p, a[0].key));
      if rev.0 {
        ReviseAssignedOk(p, rev.1, a[1..]);
      }
    }
  }

  /**
   * `consistent(a)`: what it returns (or raises) and the domains it leaves.
   * A domain list stored as a value makes `set(words)` raise TypeError.
   */
  function ConsistentCheck(p: Crossword, d: Domains, a: Assignment): (Outcome<bool>, Domains)
    requires DomainsOk(p, d) && forall k :: 0 <= k < |a| ==> a[k].key in p.variables
  {
    if !LengthsFit(a) then (Return(false), d)
    else if !AllWords(a) then (Raise(TypeError), d)
    else if !DistinctWords(a) then (Return(false), d)
    else
      var rev := ReviseAssigned(p, d, a);
      if !rev.0 then (Return(false), rev.1) else (Return(Agree(p, a)), rev.1)
  }

  /**
   * `consistent(a)` says True only of a dict of words that fit their slots,
   * are pairwise distinct and agree wherever two slots cross; it raises only
   * TypeError, only for a domain list stored as a value; and it narrows the
   * domains as the revisions do.
   */
  lemma ConsistentCheckOk(p: Crossword, d: Domains, a: Assignment)
    requires DomainsOk(p, d) && forall k :: 0 <= k < |a| ==> a[k].key in p.variables
    ensures Narrower(ConsistentCheck(p, d, a).1, d) && DomainsOk(p, ConsistentCheck(p, d, a).1)
    ensures NodeConsistent(d) ==> NodeConsistent(ConsistentCheck(p, d, a).1)
    ensures ConsistentCheck(p, d, a).0 == Return(true) ==> AllWords(a) && LengthsFit(a) && DistinctWords(a) && Agree(p, a)
    ensures ConsistentCheck(p, d, a).0.Raise? ==> ConsistentCheck(p, d, a).0.error == TypeError && LengthsFit(a) && !AllWords(a)
    ensures AllWords(a) ==> ConsistentCheck(p, d, a).0.Return?
  {
    ReviseAssignedOk(p, d, a);
  }

  // ---------------------------------------------------------------------------
  // assignment_complete, backtrack

  /** Every slot is assigned a word. */
  predicate Complete(p: Crossword, a: Assignment) {
    forall v :: v in p.variables ==> Get(a, v).Some? && Get(a, v).value.Word?
  }

  /** A filled crossword: words from the list, of the right lengths, distinct, agreeing where slots cross. */
  predicate Solution(p: Crossword, a: Assignment) {
    AssignmentOk(p, a) && AllWords(a) && LengthsFit(a) && DistinctWords(a) && Agree(p, a)
  }

  /** Every slot is a key exactly when the dict has as many entries as there are slots. */
  lemma AllKeysPresent(p: Crossword, a: Assignment)
    requires WellFormed(p) && KeysOk(p, a)
    ensures Keys(a) == (set v | v in p.variables) <==> |a| == |p.variables|
  {
    KeysCard(a);
    ListedCard(p.variables);
    if |a| == |p.variables| {
      FullSubset(Keys(a), set v | v in p.variables);
    }
  }

  /** Assigning a listed word to a slot keeps the dict well formed, and a dict of words a dict of words. */
  lemma PutWordOk(p: Crossword, a: Assignment, v: Variable, w: string)
    requires AssignmentOk(p, a) && v in p.variables && w in p.words
    ensures AssignmentOk(p, Put(a, v, Word(w)))
    ensures AllWords(a) ==> AllWords(Put(a, v, Word(w)))
  {
    var r := Put(a, v, Word(w));
    forall k | 0 <= k < |r|
      ensures r[k].key in p.variables && (r[k].val.Word? ==> r[k].val.word in p.words)
      ensures AllWords(a) ==> r[k].val.Word?
    {
      if r[k] != Entry(v, Word(w)) {
        var j :| 0 <= j < |a| && a[j] == r[k];
      }
    }
  }

  /** Every entry whose key is not among ns holds a word. */
  predicate WordsOutside(a: Assignment, ns: seq<Variable>) {
    forall k :: 0 <= k < |a| && a[k].key !in ns ==> a[k].val.Word?
  }

  /** One more neighbour's domain stored: the lookups after the store. */
  lemma StoreGetStep(d: Domains, a: Assignment, stored: Assignment, ns: seq<Variable>, t: nat, next: nat)
    requires next == t + 1 <= |ns| && forall n :: n in ns ==> n in d
    requires forall u :: Get(stored, u) == if u in ns[..t] then Some(Dom(d[u])) else Get(a, u)
    ensures forall u :: Get(Put(stored, ns[t], Dom(d[ns[t]])), u) ==
                         if u in ns[..next] then Some(Dom(d[u])) else Get(a, u)
  {
    PrefixStep(ns, t, next);
    forall u ensures Get(Put(stored, ns[t], Dom(d[ns[t]])), u) ==
                     if u in ns[..next] then Some(Dom(d[u])) else Get(a, u)
    {
      PutGet(stored, ns[t], Dom(d[ns[t]]), u);
    }
  }

  /** One more neighbour's domain stored: entries of other slots still come from a. */
  lemma StoreKeepStep(d: Domains, a: Assignment, stored: Assignment, ns: seq<Variable>, t: nat, next: nat)
    requires next == t + 1 <= |ns| && ns[t] in d
    requires forall k :: 0 <= k < |stored| && stored[k].key !in ns[..t] ==> stored[k] in a
    ensures forall k :: 0 <= k < |Put(stored, ns[t], Dom(d[ns[t]]))| &&
                        Put(stored, ns[t], Dom(d[ns[t]]))[k].key !in ns[..next] ==>
                        Put(stored, ns[t], Dom(d[ns[t]]))[k] in a
  {
    PrefixStep(ns, t, next);
  }

  /** Every slot has an entry exactly when the dict has as many entries as there are slots. */
  lemma EverySlotKeyed(p: Crossword, a: Assignment)
    requires WellFormed(p) && KeysOk(p, a)
    ensures Complete(p, a) ==> |a| == |p.variables|
    ensures |a| == |p.variables| ==> forall v :: v in p.variables ==> Get(a, v).Some?
  {
    AllKeysPresent(p, a);
    if forall v :: v in p.variables ==> Get(a, v).Some? {
      assert Keys(a) == set v | v in p.variables;
    }
  }

  /**
   * The slot `select_unassigned_variable` picks from vs is vs[k]: it has the
   * fewest remaining words; among those it has the most neighbours; and every
   * earlier slot with as few words has strictly fewer neighbours.
   */
  predicate FirstMrv(p: Crossword, d: Domains, vs: seq<Variable>, k: int)
    requires forall v :: v in vs ==> v in d
  {
    0 <= k < |vs| &&
    (forall t :: 0 <= t < |vs| ==> |d[vs[k]]| <= |d[vs[t]]|) &&
    (forall t :: 0 <= t < |vs| && |d[vs[t]]| == |d[vs[k]]| ==> |Neighbors(p, vs[t])| <= |Neighbors(p, vs[k])|) &&
    (forall t :: 0 <= t < k && |d[vs[t]]| == |d[vs[k]]| ==> |Neighbors(p, vs[t])| < |Neighbors(p, vs[k])|)
  }

  /** The arcs (x, n) for the neighbours n of x that `backtrack` hands to `ac3`. */
  function ArcsTo(x: Variable, ns: seq<Variable>): (r: seq<Arc>)
    ensures forall a :: a in r <==> a.0 == x && a.1 in ns
  {
    if ns == [] then []
    else
      assert ns == ns[..|ns| - 1] + [ns[|ns| - 1]];
      ArcsTo(x, ns[..|ns| - 1]) + [(x, ns[|ns| - 1])]
  }

  /** The key a dict of counts gives a word (0 for a word it does not hold). */
  function RawKey(raw: map<string, nat>): string -> nat {
    w => if w in raw then raw[w] else 0
  }

  function NotIn(s: set<Variable>): Variable -> bool {
    v => v !in s
  }

  /** The slots without an entry in a, in declaration order. */
  function Unassigned(p: Crossword, a: Assignment): seq<Variable> {
    Filter(p.variables, NotIn(Keys(a)))
  }

  // ---------------------------------------------------------------------------
  // order_domain_values

  /** How many of the slots ns have w in their domain. */
  function CountHolding(d: Domains, ns: seq<Variable>, w: string): (r: nat)
    ensures r <= |ns|
  {
    if ns == [] then 0
    else
      var n := ns[|ns| - 1];
      CountHolding(d, ns[..|ns| - 1], w) + (if n in d && w in d[n] then 1 else 0)
  }

  /** The ranking key `order_domain_values` gives a word of x's domain. */
  function ConstraintKey(d: Domains, ns: seq<Variable>): string -> nat {
    w => CountHolding(d, ns, w)
  }

  /** The elements of xs whose key is c, in order. */
  function WithKey<T(!new)>(xs: seq<T>, key: T -> nat, c: nat): seq<T>
  {
    if xs == [] then []
    else
      var x := xs[|xs| - 1];
      WithKey(xs[..|xs| - 1], key, c) + (if key(x) == c then [x] else [])
  }

  function MaxKey<T(!new)>(xs: seq<T>, key: T -> nat): (m: nat)
    ensures forall x :: x in xs ==> key(x) <= m
  {
    if xs == [] then 0
    else
      var x := xs[|xs| - 1];
      assert xs == xs[..|xs| - 1] + [x];
      var m := MaxKey(xs[..|xs| - 1], key);
      if key(x) > m then key(x) else m
  }

  function Buckets<T(!new)>(xs: seq<T>, key: T -> nat, c: nat, top: nat): seq<T>
    decreases top + 1 - c
  {
    if c > top then [] else WithKey(xs, key, c) + Buckets(xs, key, c + 1, top)
  }

  /**
   * Python's stable `sorted(xs, key=key)`, written as one pass per key value:
   * the elements with key 0 in their order, then key 1, and so on.
   */
  function SortBy<T(!new)>(xs: seq<T>, key: T -> nat): seq<T> {
    Buckets(xs, key, 0, MaxKey(xs, key))
  }

  lemma {:induction false} WithKeyAppend<T(!new)>(xs: seq<T>, ys: seq<T>, key: T -> nat, c: nat)
    ensures WithKey(xs + ys, key, c) == WithKey(xs, key, c) + WithKey(ys, key, c)
    decreases |ys|
  {
    if ys != [] {
      var y, ys' := ys[|ys| - 1], ys[..|ys| - 1];
      var tail := if key(y) == c then [y] else [];
      assert (xs + ys)[..|xs + ys| - 1] == xs + ys';
      assert (xs + ys)[|xs + ys| - 1] == y;
      WithKeyAppend(xs, ys', key, c);
      calc {
        WithKey(xs + ys, key, c);
        WithKey(xs + ys', key, c) + tail;
        (WithKey(xs, key, c) + WithKey(ys', key, c)) + tail;
        WithKey(xs, key, c) + (WithKey(ys', key, c) + tail);
        WithKey(xs, key, c) + WithKey(ys, key, c);
      }
    } else {
      assert xs + ys == xs;
    }
  }

  lemma {:induction false} WithKeyOfWithKey<T(!new)>(xs: seq<T>, key: T -> nat, c: nat, c': nat)
    ensures WithKey(WithKey(xs, key, c'), key, c) == if c == c' then WithKey(xs, key, c) else []
  {
    if xs != [] {
      var x := xs[|xs| - 1];
      WithKeyOfWithKey(xs[..|xs| - 1], key, c, c');
      WithKeyAppend(WithKey(xs[..|xs| - 1], key, c'), if key(x) == c' then [x] else [], key, c);
    }
  }

  lemma BucketsUnfold<T(!new)>(xs: seq<T>, key: T -> nat, lo: nat, next: nat, top: nat)
    requires lo <= top && next == lo + 1
    ensures Buckets(xs, key, lo, top) == WithKey(xs, key, lo) + Buckets(xs, key, next, top)
  {
  }

  lemma {:induction false} WithKeyOfBuckets<T(!new)>(xs: seq<T>, key: T -> nat, c: nat, lo: nat, top: nat)
    ensures lo <= c <= top ==> WithKey(Buckets(xs, key, lo, top), key, c) == WithKey(xs, key, c)
    ensures !(lo <= c <= top) ==> WithKey(Buckets(xs, key, lo, top), key, c) == []
    decreases top + 1 - lo
  {
    if lo <= top {
      var next := lo + 1;
      var w, rest := WithKey(xs, key, lo), Buckets(xs, key, next, top);
      BucketsUnfold(xs, key, lo, next, top);
      WithKeyAppend(w, rest, key, c);
      WithKeyOfWithKey(xs, key, c, lo);
      WithKeyOfBuckets(xs, key, c, next, top);
      if c == lo {
        calc {
          WithKey(Buckets(xs, key, lo, top), key, c);
          WithKey(w, key, c) + WithKey(rest, key, c);
          WithKey(xs, key, c) + [];
          WithKey(xs, key, c);
        }
      } else {
        calc {
          WithKey(Buckets(xs, key, lo, top), key, c);
          WithKey(w, key, c) + WithKey(rest, key, c);
          [] + WithKey(rest, key, c);
          WithKey(rest, key, c);
        }
      }
    }
  }

  lemma {:induction false} WithKeyAbove<T(!new)>(xs: seq<T>, key: T -> nat, c: nat)
    requires forall x :: x in xs ==> key(x) < c
    ensures WithKey(xs, key, c) == []
  {
    if xs != [] {
      assert xs == xs[..|xs| - 1] + [xs[|xs| - 1]];
      WithKeyAbove(xs[..|xs| - 1], key, c);
    }
  }

  /** Stable: for each key value, the elements with that key keep their order. */
  lemma SortByStable<T(!new)>(xs: seq<T>, key: T -> nat, c: nat)
    ensures WithKey(SortBy(xs, key), key, c) == WithKey(xs, key, c)
  {
    var top := MaxKey(xs, key);
    WithKeyOfBuckets(xs, key, c, 0, top);
    if c > top {
      WithKeyAbove(xs, key, c);
    }
  }

  lemma {:induction false} WithKeyElems<T(!new)>(xs: seq<T>, key: T -> nat, c: nat)
    ensures forall x :: x in WithKey(xs, key, c) ==> key(x) == c
  {
    if xs != [] {
      WithKeyElems(xs[..|xs| - 1], key, c);
    }
  }

  lemma {:induction false} BucketsElems<T(!new)>(xs: seq<T>, key: T -> nat, lo: nat, top: nat)
    ensures forall x :: x in Buckets(xs, key, lo, top) ==> lo <= key(x)
    decreases top + 1 - lo
  {
    if lo <= top {
      WithKeyElems(xs, key, lo);
      BucketsElems(xs, key, lo + 1, top);
    }
  }

  lemma {:induction false} BucketsSorted<T(!new)>(xs: seq<T>, key: T -> nat, lo: nat, top: nat)
    ensures forall s, t :: 0 <= s < t < |Buckets(xs, key, lo, top)| ==>
      key(Buckets(xs, key, lo, top)[s]) <= key(Buckets(xs, key, lo, top)[t])
    decreases top + 1 - lo
  {
    if lo <= top {
      var next := lo + 1;
      var w, rest := WithKey(xs, key, lo), Buckets(xs, key, next, top);
      BucketsUnfold(xs, key, lo, next, top);
      WithKeyElems(xs, key, lo);
      BucketsElems(xs, key, next, top);
      BucketsSorted(xs, key, next, top);
      var r := w + rest;
      forall s, t | 0 <= s < t < |r| ensures key(r[s]) <= key(r[t]) {
        if t < |w| {
          assert r[s] in w && r[t] in w;
        } else if s < |w| {
          assert r[s] in w && r[t] == rest[t - |w|];
          assert r[t] in rest;
        } else {
          assert r[s] == rest[s - |w|] && r[t] == rest[t - |w|];
        }
      }
    }
  }

  /** Sorted: keys never decrease along the result. */
  lemma SortBySorted<T(!new)>(xs: seq<T>, key: T -> nat)
    ensures forall s, t :: 0 <= s < t < |SortBy(xs, key)| ==> key(SortBy(xs, key)[s]) <= key(SortBy(xs, key)[t])
  {
    BucketsSorted(xs, key, 0, MaxKey(xs, key));
  }

  /** How many times x occurs in xs. */
  function Occurrences<T(==)>(xs: seq<T>, x: T): nat {
    if xs == [] then 0
    else Occurrences(xs[..|xs| - 1], x) + (if xs[|xs| - 1] == x then 1 else 0)
  }

  lemma {:induction false} OccurrencesAppend<T>(xs: seq<T>, ys: seq<T>, x: T)
    ensures Occurrences(xs + ys, x) == Occurrences(xs, x) + Occurrences(ys, x)
    decreases |ys|
  {
    if ys == [] {
      assert xs + ys == xs;
    } else {
      assert (xs + ys)[..|xs + ys| - 1] == xs + ys[..|ys| - 1];
      OccurrencesAppend(xs, ys[..|ys| - 1], x);
    }
  }

  lemma {:induction false} OccurrencesMultiset<T>(xs: seq<T>, x: T)
    ensures Occurrences(xs, x) == multiset(xs)[x]
  {
    if xs != [] {
      assert xs == xs[..|xs| - 1] + [xs[|xs| - 1]];
      OccurrencesMultiset(xs[..|xs| - 1], x);
    }
  }

  lemma {:induction false} WithKeyCount<T(!new)>(xs: seq<T>, key: T -> nat, c: nat, x: T)
    ensures Occurrences(WithKey(xs, key, c), x) == if key(x) == c then Occurrences(xs, x) else 0
  {
    if xs != [] {
      var last := xs[|xs| - 1];
      WithKeyCount(xs[..|xs| - 1], key, c, x);
      OccurrencesAppend(WithKey(xs[..|xs| - 1], key, c), if key(last) == c then [last] else [], x);
      assert Occurrences([last], x) == if last == x then 1 else 0 by {
        assert [last][..0] == [];
      }
    }
  }

  lemma BucketsCountStep<T(!new)>(xs: seq<T>, key: T -> nat, lo: nat, next: nat, top: nat, x: T)
    requires lo <= top && next == lo + 1
    requires next <= key(x) <= top ==> Occurrences(Buckets(xs, key, next, top), x) == Occurrences(xs, x)
    requires !(next <= key(x) <= top) ==> Occurrences(Buckets(xs, key, next, top), x) == 0
    ensures lo <= key(x) <= top ==> Occurrences(Buckets(xs, key, lo, top), x) == Occurrences(xs, x)
    ensures !(lo <= key(x) <= top) ==> Occurrences(Buckets(xs, key, lo, top), x) == 0
  {
    BucketsUnfold(xs, key, lo, next, top);
    OccurrencesAppend(WithKey(xs, key, lo), Buckets(xs, key, next, top), x);
    WithKeyCount(xs, key, lo, x);
  }

  lemma {:induction false} BucketsCount<T(!new)>(xs: seq<T>, key: T -> nat, lo: nat, top: nat, x: T)
    ensures lo <= key(x) <= top ==> Occurrences(Buckets(xs, key, lo, top), x) == Occurrences(xs, x)
    ensures !(lo <= key(x) <= top) ==> Occurrences(Buckets(xs, key, lo, top), x) == 0
    decreases top + 1 - lo
  {
    if lo <= top {
      var next := lo + 1;
      BucketsCount(xs, key, next, top, x);
      BucketsCountStep(xs, key, lo, next, top, x);
    }
  }

  /** A permutation: the sorted list has the same elements, as often. */
  lemma SortByPermutes<T(!new)>(xs: seq<T>, key: T -> nat)
    ensures multiset(SortBy(xs, key)) == multiset(xs)
  {
    var top := MaxKey(xs, key);
    forall x ensures multiset(SortBy(xs, key))[x] == multiset(xs)[x] {
      BucketsCount(xs, key, 0, top, x);
      OccurrencesMultiset(SortBy(xs, key), x);
      OccurrencesMultiset(xs, x);
      if x !in xs {
        assert multiset(xs)[x] == 0;
      }
    }
  }

  lemma {:induction false} WithKeyAgree<T(!new)>(xs: seq<T>, k1: T -> nat, k2: T -> nat, c: nat)
    requires forall x :: x in xs ==> k1(x) == k2(x)
    ensures WithKey(xs, k1, c) == WithKey(xs, k2, c)
  {
    if xs != [] {
      assert xs == xs[..|xs| - 1] + [xs[|xs| - 1]];
      WithKeyAgree(xs[..|xs| - 1], k1, k2, c);
    }
  }

  lemma {:induction false} MaxKeyAgree<T(!new)>(xs: seq<T>, k1: T -> nat, k2: T -> nat)
    requires forall x :: x in xs ==> k1(x) == k2(x)
    ensures MaxKey(xs, k1) == MaxKey(xs, k2)
  {
    if xs != [] {
      assert xs == xs[..|xs| - 1] + [xs[|xs| - 1]];
      MaxKeyAgree(xs[..|xs| - 1], k1, k2);
    }
  }

  lemma {:induction false} BucketsAgree<T(!new)>(xs: seq<T>, k1: T -> nat, k2: T -> nat, lo: nat, top: nat)
    requires forall x :: x in xs ==> k1(x) == k2(x)
    ensures Buckets(xs, k1, lo, top) == Buckets(xs, k2, lo, top)
    decreases top + 1 - lo
  {
    if lo <= top {
      WithKeyAgree(xs, k1, k2, lo);
      BucketsAgree(xs, k1, k2, lo + 1, top);
    }
  }

  /** The order depends only on the keys of the elements being sorted. */
  lemma SortByAgree<T(!new)>(xs: seq<T>, k1: T -> nat, k2: T -> nat)
    requires forall x :: x in xs ==> k1(x) == k2(x)
    ensures SortBy(xs, k1) == SortBy(xs, k2)
  {
    MaxKeyAgree(xs, k1, k2);
    BucketsAgree(xs, k1, k2, 0, MaxKey(xs, k1));
  }

  // ---------------------------------------------------------------------------
  // letter_grid

  /** The letter index of slot v that would sit in cell (r, c). */
  function Offset(v: Variable, r: int, c: int): int {
    if v.direction == Down then r - v.i else c - v.j
  }

  /** Word w placed in slot v covers cell (r, c). */
  predicate Covers(v: Variable, w: string, r: int, c: int) {
    0 <= Offset(v, r, c) < |w| && CellOf(v, Offset(v, r, c)) == (r, c)
  }

  /**
   * The letter `letter_grid` leaves in cell (r, c): that of the last entry
   * whose word covers the cell, or None.
   */
  function GridAt(a: Assignment, r: int, c: int): Option<char>
    requires AllWords(a)
  {
    if a == [] then None
    else
      var e := a[|a| - 1];
      if Covers(e.key, e.val.word, r, c) then Some(e.val.word[Offset(e.key, r, c)])
      else GridAt(a[..|a| - 1], r, c)
  }

  lemma OffsetOfCell(v: Variable, k: int)
    ensures Offset(v, CellOf(v, k).0, CellOf(v, k).1) == k
  {
  }

  /** Two distinct slots sharing a cell overlap there, as the overlap table says. */
  lemma SharedCell(p: Crossword, x: Variable, kx: int, y: Variable, ky: int)
    requires WellFormed(p) && x in p.variables && y in p.variables && x != y
    requires 0 <= kx < x.length && 0 <= ky < y.length && CellOf(x, kx) == CellOf(y, ky)
    ensures OverlapOf(p, x, y) == Some((kx, ky))
  {
    assert SameCell(x, kx, y, ky);
  }

  /** Among agreeing entries, another entry covering a cell of entry s has the same letter there. */
  lemma SameLetter(p: Crossword, a: Assignment, s: int, k: int, t: int)
    requires WellFormed(p) && Solution(p, a)
    requires 0 <= s < |a| && 0 <= k < |a[s].val.word| && 0 <= t < |a| && s != t
    requires Covers(a[t].key, a[t].val.word, CellOf(a[s].key, k).0, CellOf(a[s].key, k).1)
    ensures a[t].val.word[Offset(a[t].key, CellOf(a[s].key, k).0, CellOf(a[s].key, k).1)] == a[s].val.word[k]
  {
    var cell := CellOf(a[s].key, k);
    var k' := Offset(a[t].key, cell.0, cell.1);
    assert a[s].key != a[t].key;
    SharedCell(p, a[s].key, k, a[t].key, k');
    assert AgreeAt(p, a, s);
  }

  /** No other entry of a writes a different letter into cell (r, c) than ch. */
  predicate NoClash(a: Assignment, s: int, r: int, c: int, ch: char)
    requires AllWords(a)
  {
    forall t :: 0 <= t < |a| && t != s && Covers(a[t].key, a[t].val.word, r, c) ==>
      a[t].val.word[Offset(a[t].key, r, c)] == ch
  }

  /** When nothing else clashes with it, letter k of entry s is what the grid shows. */
  lemma {:induction false} GridShowsLetter(a: Assignment, s: int, k: int)
    requires AllWords(a) && 0 <= s < |a| && 0 <= k < |a[s].val.word|
    requires NoClash(a, s, CellOf(a[s].key, k).0, CellOf(a[s].key, k).1, a[s].val.word[k])
    ensures GridAt(a, CellOf(a[s].key, k).0, CellOf(a[s].key, k).1) == Some(a[s].val.word[k])
  {
    var cell := CellOf(a[s].key, k);
    OffsetOfCell(a[s].key, k);
    if s < |a| - 1 && !Covers(a[|a| - 1].key, a[|a| - 1].val.word, cell.0, cell.1) {
      var front := a[..|a| - 1];
      assert front[s] == a[s];
      assert forall t :: 0 <= t < |front| ==> front[t] == a[t];
      GridShowsLetter(front, s, k);
    }
  }

  /**
   * For a filled crossword, the grid shows every assigned word in its slot:
   * overlapping slots agree, so the order of writing does not matter.
   */
  lemma GridShowsEveryWord(p: Crossword, a: Assignment, s: int, k: int)
    requires WellFormed(p) && Solution(p, a)
    requires 0 <= s < |a| && 0 <= k < |a[s].val.word|
    ensures GridAt(a, CellOf(a[s].key, k).0, CellOf(a[s].key, k).1) == Some(a[s].val.word[k])
  {
    var cell := CellOf(a[s].key, k);
    forall t | 0 <= t < |a| && t != s && Covers(a[t].key, a[t].val.word, cell.0, cell.1)
      ensures a[t].val.word[Offset(a[t].key, cell.0, cell.1)] == a[s].val.word[k]
    {
      SameLetter(p, a, s, k, t);
    }
    GridShowsLetter(a, s, k);
  }
}
