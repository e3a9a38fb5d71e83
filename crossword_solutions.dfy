/**
 * Why the pruning in the crossword solver loses no solution: a filled
 * crossword whose words are all still in their slots' domains keeps them
 * through every revision, so `ac3` and `consistent` never remove a word
 * that some solution still needs, and `consistent` accepts every part of
 * such a solution.
 */
module CrosswordSolutions {
  import opened Wrappers
  import opened CrosswordProblem
  import opened CrosswordAssignment
  import opened CrosswordLogic

  /** Every entry of a whose key is not among ns is an entry of b. */
  predicate KeptOutside(a: Assignment, b: Assignment, ns: seq<Variable>) {
    forall k :: 0 <= k < |a| && a[k].key !in ns ==> a[k] in b
  }

  /** Every entry of a is an entry of s: s extends a. */
  predicate Extends(s: Assignment, a: Assignment) {
    forall k :: 0 <= k < |a| ==> a[k] in s
  }

  /** Each slot of s holds a word that is still in that slot's domain. */
  predicate WordsIn(s: Assignment, d: Domains) {
    forall k :: 0 <= k < |s| ==> s[k].key in d && s[k].val.Word? && s[k].val.word in d[s[k].key]
  }

  /** s fills the crossword, and every word it uses is still in its slot's domain. */
  predicate Viable(p: Crossword, d: Domains, s: Assignment) {
    Complete(p, s) && Solution(p, s) && WordsIn(s, d)
  }

  /** Going from domains d1 to d2 loses no solution. */
  ghost predicate KeepsSolutions(p: Crossword, d2: Domains, d1: Domains) {
    forall s :: Viable(p, d1, s) ==> Viable(p, d2, s)
  }

  /** No solution still viable under d extends a. */
  ghost predicate NoViableExtension(p: Crossword, d: Domains, a: Assignment) {
    forall s :: Extends(s, a) ==> !Viable(p, d, s)
  }

  /** No solution viable under d that extends a gives slot v the word w. */
  ghost predicate Excludes(p: Crossword, d: Domains, a: Assignment, v: Variable, w: string) {
    forall s :: Extends(s, a) && Viable(p, d, s) ==> Get(s, v) != Some(Word(w))
  }

  lemma KeepsTrans(p: Crossword, d3: Domains, d2: Domains, d1: Domains)
    requires KeepsSolutions(p, d3, d2) && KeepsSolutions(p, d2, d1)
    ensures KeepsSolutions(p, d3, d1)
  {
  }

  lemma ExtendsTrans(s: Assignment, a: Assignment, b: Assignment)
    requires Extends(s, a) && Extends(a, b)
    ensures Extends(s, b)
  {
    forall k | 0 <= k < |b|
      ensures b[k] in s
    {
      var i :| 0 <= i < |a| && a[i] == b[k];
    }
  }

  /** The position of slot v in a complete dict. */
  lemma SlotIndex(p: Crossword, s: Assignment, v: Variable) returns (k: int)
    requires Complete(p, s) && v in p.variables
    ensures 0 <= k < |s| && s[k].key == v && s[k].val == Get(s, v).value
  {
    k :| 0 <= k < |s| && s[k].key == v && s[k].val == Get(s, v).value;
  }

  /**
   * `revise(x, y)` keeps every word a viable solution gives x, because the
   * word the solution gives y supports it; so the flag is True whenever x
   * and y overlap.
   */
  lemma RevisionKeeps(p: Crossword, d: Domains, x: Variable, y: Variable, s: Assignment)
    requires x in d && y in d && x != y && x in p.variables && y in p.variables
    requires Viable(p, d, s)
    ensures Viable(p, Revision(p, d, x, y).1, s)
    ensures OverlapOf(p, x, y).Some? ==> Revision(p, d, x, y).0
  {
    RevisionOk(p, d, x, y);
    var rev := Revision(p, d, x, y);
    if OverlapOf(p, x, y).Some? {
      var (i, j) := OverlapOf(p, x, y).value;
      var kx := SlotIndex(p, s, x);
      var ky := SlotIndex(p, s, y);
      forall k | 0 <= k < |s| && s[k].key == x
        ensures s[k].val.word in rev.1[x]
      {
        assert AgreeAt(p, s, k);
        assert Matches(s[k].val.word, i, s[ky].val.word, j);
      }
      assert s[kx].val.word in rev.1[x];
    }
  }

  /** The `ac3` loop keeps every viable solution viable. */
  lemma {:induction false} Ac3Keeps(p: Crossword, d: Domains, q: seq<Arc>, fuel: nat, s: Assignment)
    requires HasSlots(p, d) && ArcsOk(p, q) && Viable(p, d, s)
    ensures Viable(p, Ac3Run(p, d, q, fuel).1, s)
    decreases fuel
  {
    if q != [] && fuel > 0 {
      var d2, q2 := Ac3Next(p, d, q, fuel);
      RevisionKeeps(p, d, q[0].0, q[0].1, s);
      var rest: nat := fuel - 1;
      Ac3Fuel(p, d2, q2, fuel, rest);
      Ac3Keeps(p, d2, q2, rest, s);
    }
  }

  /** `ac3` loses no solution. */
  lemma Ac3KeepsSolutions(p: Crossword, d: Domains, q: seq<Arc>, fuel: nat)
    requires HasSlots(p, d) && ArcsOk(p, q)
    ensures KeepsSolutions(p, Ac3Run(p, d, q, fuel).1, d)
  {
    forall s: Assignment | Viable(p, d, s)
      ensures Viable(p, Ac3Run(p, d, q, fuel).1, s)
    {
      Ac3Keeps(p, d, q, fuel, s);
    }
  }

  /** While a solution is viable, revising x against overlapping slots never stops early and keeps it viable. */
  lemma {:induction false} ReviseEachKeeps(p: Crossword, d: Domains, x: Variable, ys: seq<Variable>, s: Assignment)
    requires DomainsOk(p, d) && x in p.variables
    requires forall y :: y in ys ==> y in p.variables && y != x && OverlapOf(p, x, y).Some?
    requires Viable(p, d, s)
    ensures ReviseEach(p, d, x, ys).0 && Viable(p, ReviseEach(p, d, x, ys).1, s)
  {
    if ys != [] {
      RevisionOk(p, d, x, ys[0]);
      RevisionKeeps(p, d, x, ys[0], s);
      ReviseEachKeeps(p, Revision(p, d, x, ys[0]).1, x, ys[1..], s);
    }
  }

  /** While a solution is viable, the revise loop of `consistent` never fails and keeps it viable. */
  lemma {:induction false} ReviseAssignedKeeps(p: Crossword, d: Domains, a: Assignment, s: Assignment)
    requires DomainsOk(p, d) && forall k :: 0 <= k < |a| ==> a[k].key in p.variables
    requires Viable(p, d, s)
    ensures ReviseAssigned(p, d, a).0 && Viable(p, ReviseAssigned(p, d, a).1, s)
  {
    if a != [] {
      ReviseEachOk(p, d, a[0].key, Neighbors(p, a[0].key));
      ReviseEachKeeps(p, d, a[0].key, Neighbors(p, a[0].key), s);
      ReviseAssignedKeeps(p, ReviseEach(p, d, a[0].key, Neighbors(p, a[0].key)).1, a[1..], s);
    }
  }

  /** Part of a solution, one entry per slot, fits, is distinct and agrees. */
  lemma PartOfSolution(p: Crossword, a: Assignment, s: Assignment)
    requires Solution(p, s) && Extends(s, a) && DistinctKeys(a)
    ensures AllWords(a) && LengthsFit(a) && DistinctWords(a) && Agree(p, a)
  {
    forall k | 0 <= k < |a|
      ensures a[k].val.Word? && SizeOf(a[k].val) == a[k].key.length
    {
      var i :| 0 <= i < |s| && s[i] == a[k];
    }
    forall m, n | 0 <= m < n < |a|
      ensures a[m].val.word != a[n].val.word
    {
      var i :| 0 <= i < |s| && s[i] == a[m];
      var j :| 0 <= j < |s| && s[j] == a[n];
      if i < j {
        assert s[i].val.word != s[j].val.word;
      } else {
        assert s[j].val.word != s[i].val.word;
      }
    }
    forall m | 0 <= m < |a|
      ensures AgreeAt(p, a, m)
    {
      var i :| 0 <= i < |s| && s[i] == a[m];
      assert AgreeAt(p, s, i);
      forall n | 0 <= n < |a| && a[m].key != a[n].key && OverlapOf(p, a[m].key, a[n].key).Some?
        ensures Matches(a[m].val.word, OverlapOf(p, a[m].key, a[n].key).value.0,
                        a[n].val.word, OverlapOf(p, a[m].key, a[n].key).value.1)
      {
        var j :| 0 <= j < |s| && s[j] == a[n];
      }
    }
  }

  /**
   * `consistent` keeps every viable solution viable, and it says True of
   * every part of one (one entry per slot).
   */
  lemma ConsistentKeeps(p: Crossword, d: Domains, a: Assignment, s: Assignment)
    requires DomainsOk(p, d) && forall k :: 0 <= k < |a| ==> a[k].key in p.variables
    requires Viable(p, d, s)
    ensures Viable(p, ConsistentCheck(p, d, a).1, s)
    ensures Extends(s, a) && DistinctKeys(a) ==> ConsistentCheck(p, d, a).0 == Return(true)
  {
    ReviseAssignedKeeps(p, d, a, s);
    if Extends(s, a) && DistinctKeys(a) {
      PartOfSolution(p, a, s);
    }
  }

  /** `consistent` loses no solution. */
  lemma ConsistentKeepsSolutions(p: Crossword, d: Domains, a: Assignment)
    requires DomainsOk(p, d) && forall k :: 0 <= k < |a| ==> a[k].key in p.variables
    ensures KeepsSolutions(p, ConsistentCheck(p, d, a).1, d)
  {
    forall s: Assignment | Viable(p, d, s)
      ensures Viable(p, ConsistentCheck(p, d, a).1, s)
    {
      ConsistentKeeps(p, d, a, s);
    }
  }

  /** Node consistency keeps every word of a solution, since each fits its slot. */
  lemma NodeFilteredKeeps(p: Crossword, d: Domains)
    ensures KeepsSolutions(p, NodeFiltered(d), d)
  {
    forall s: Assignment | Viable(p, d, s)
      ensures WordsIn(s, NodeFiltered(d))
    {
      forall k | 0 <= k < |s|
        ensures s[k].val.word in NodeFiltered(d)[s[k].key]
      {
        assert HasLength(s[k].key.length)(s[k].val.word);
      }
    }
  }

  /** Every solution uses only listed words, so the starting domains hold all of them. */
  lemma FullDomainsViable(p: Crossword, s: Assignment)
    requires Complete(p, s) && Solution(p, s)
    ensures Viable(p, map v | v in p.variables :: p.words, s)
  {
  }

  /** Assigning v the word a solution gives it keeps the dict a part of that solution. */
  lemma ExtendsPut(a: Assignment, v: Variable, w: string, s: Assignment)
    requires Extends(s, a) && Get(s, v) == Some(Word(w))
    ensures Extends(s, Put(a, v, Word(w)))
  {
    var k :| 0 <= k < |s| && s[k].key == v && s[k].val == Word(w);
    assert s[k] == Entry(v, Word(w));
  }

  /** A word no viable extension of a smaller dict uses is excluded for every larger dict and wider domains. */
  lemma ExcludesWeaken(p: Crossword, d0: Domains, d1: Domains, a0: Assignment, a1: Assignment, v: Variable, w: string)
    requires KeepsSolutions(p, d1, d0) && Extends(a0, a1) && Excludes(p, d1, a1, v, w)
    ensures Excludes(p, d0, a0, v, w)
  {
    forall s: Assignment | Extends(s, a0) && Viable(p, d0, s)
      ensures Get(s, v) != Some(Word(w))
    {
      ExtendsTrans(s, a0, a1);
    }
  }

  /** When the search below `a` plus (v, w) finds no viable extension, no viable extension of `a` gives v the word w. */
  lemma ExcludesFromSearch(p: Crossword, d0: Domains, d1: Domains, a: Assignment, v: Variable, w: string)
    requires KeepsSolutions(p, d1, d0) && NoViableExtension(p, d1, Put(a, v, Word(w)))
    ensures Excludes(p, d0, a, v, w)
  {
    forall s: Assignment | Extends(s, a) && Viable(p, d0, s)
      ensures Get(s, v) != Some(Word(w))
    {
      if Get(s, v) == Some(Word(w)) {
        ExtendsPut(a, v, w, s);
      }
    }
  }

  /** Each word of v's domain sits somewhere in a reordering of that domain. */
  lemma WordPosition(words: seq<string>, dv: seq<string>, w: string) returns (k: int)
    requires multiset(words) == multiset(dv) && w in dv
    ensures 0 <= k < |words| && words[k] == w
  {
    assert w in multiset(dv);
    assert w in multiset(words);
    k :| 0 <= k < |words| && words[k] == w;
  }

  /** The first n of the words tried for v are excluded. */
  ghost predicate ExcludedUpTo(p: Crossword, d: Domains, a: Assignment, v: Variable, words: seq<string>, n: int) {
    forall j :: 0 <= j < n && j < |words| ==> Excludes(p, d, a, v, words[j])
  }

  /** One more excluded word. */
  lemma ExcludedStep(p: Crossword, d: Domains, a: Assignment, v: Variable, words: seq<string>, k: int)
    requires 0 <= k < |words| && ExcludedUpTo(p, d, a, v, words, k) && Excludes(p, d, a, v, words[k])
    ensures ExcludedUpTo(p, d, a, v, words, k + 1)
  {
  }

  /** When every word of v's domain is excluded, no viable solution extends a. */
  lemma AllExcluded(p: Crossword, d: Domains, a: Assignment, v: Variable, words: seq<string>)
    requires v in p.variables && v in d && multiset(words) == multiset(d[v])
    requires ExcludedUpTo(p, d, a, v, words, |words|)
    ensures NoViableExtension(p, d, a)
  {
    forall s: Assignment | Extends(s, a)
      ensures !Viable(p, d, s)
    {
      if Viable(p, d, s) {
        var i := SlotIndex(p, s, v);
        var k := WordPosition(words, d[v], s[i].val.word);
      }
    }
  }

  /**
   * When `consistent` rejects a with v set to w, no viable solution that
   * extends a gives v the word w: it would have been accepted.
   */
  lemma ConsistentRejects(p: Crossword, d: Domains, a: Assignment, v: Variable, w: string)
    requires DomainsOk(p, d) && KeysOk(p, Put(a, v, Word(w)))
    requires ConsistentCheck(p, d, Put(a, v, Word(w))).0 != Return(true)
    ensures Excludes(p, d, a, v, w)
  {
    forall s: Assignment | Extends(s, a) && Viable(p, d, s)
      ensures Get(s, v) != Some(Word(w))
    {
      if Get(s, v) == Some(Word(w)) {
        ExtendsPut(a, v, w, s);
        ConsistentKeeps(p, d, Put(a, v, Word(w)), s);
      }
    }
  }

  /**
   * When the search from the empty dict finds nothing, after pruning that
   * lost no solution, the puzzle has no solution within the starting domains.
   */
  lemma NoneViable(p: Crossword, d0: Domains, d1: Domains)
    requires KeepsSolutions(p, d1, d0) && NoViableExtension(p, d1, [])
    ensures forall s :: Complete(p, s) && Solution(p, s) ==> !WordsIn(s, d0)
  {
    forall s: Assignment | Complete(p, s) && Solution(p, s) && WordsIn(s, d0)
      ensures false
    {
      assert Extends(s, []);
    }
  }
}
