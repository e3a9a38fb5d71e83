/**
 * The solver's assignment: a Python dict from slot to value, kept here as
 * its list of entries in insertion order. A value is normally a word, but the
 * search also stores a slot's whole domain (a list of words) as a value.
 */
module CrosswordAssignment {
  import opened Wrappers
  import opened CrosswordProblem

  datatype Val = Word(word: string) | Dom(words: seq<string>)

  datatype Entry = Entry(key: Variable, val: Val)

  type Assignment = seq<Entry>

  function Keys(a: Assignment): set<Variable> {
    set k | 0 <= k < |a| :: a[k].key
  }

  predicate DistinctKeys(a: Assignment) {
    forall s, t :: 0 <= s < t < |a| ==> a[s].key != a[t].key
  }

  /** `a[v]` when v is a key. */
  function Get(a: Assignment, v: Variable): (r: Option<Val>)
    ensures r.Some? <==> v in Keys(a)
    ensures r.Some? ==> exists k :: 0 <= k < |a| && a[k].key == v && a[k].val == r.value
  {
    if a == [] then None
    else if a[0].key == v then Some(a[0].val)
    else
      var r := Get(a[1..], v);
      KeysSplit(a);
      r
  }

  lemma KeysCons(e: Entry, rest: Assignment)
    ensures Keys([e] + rest) == {e.key} + Keys(rest)
  {
    var r := [e] + rest;
    assert r[0].key in Keys(r);
    forall u | u in Keys(r) ensures u in {e.key} + Keys(rest) {
      var k :| 0 <= k < |r| && r[k].key == u;
      if k > 0 {
        assert r[k] == rest[k - 1];
        assert rest[k - 1].key in Keys(rest);
      } else {
        assert r[0] == e;
      }
    }
    forall u | u in Keys(rest) ensures u in Keys(r) {
      var k :| 0 <= k < |rest| && rest[k].key == u;
      assert r[k + 1] == rest[k];
      assert r[k + 1].key in Keys(r);
    }
  }

  lemma KeysSplit(a: Assignment)
    requires a != []
    ensures Keys(a) == {a[0].key} + Keys(a[1..])
  {
    assert a == [a[0]] + a[1..];
    KeysCons(a[0], a[1..]);
  }

  lemma DistinctTail(a: Assignment)
    requires a != [] && DistinctKeys(a)
    ensures DistinctKeys(a[1..]) && a[0].key !in Keys(a[1..])
  {
    forall k | 0 <= k < |a[1..]| ensures a[1..][k].key != a[0].key {
      assert a[1..][k] == a[k + 1];
    }
  }

  lemma DistinctCons(e: Entry, rest: Assignment)
    requires DistinctKeys(rest) && e.key !in Keys(rest)
    ensures DistinctKeys([e] + rest)
  {
    var r := [e] + rest;
    forall s, t | 0 <= s < t < |r| ensures r[s].key != r[t].key {
      assert r[t] == rest[t - 1];
      assert rest[t - 1].key in Keys(rest);
      if s > 0 { assert r[s] == rest[s - 1]; }
    }
  }

  /** One more element of a prefix. */
  lemma PrefixStep<T>(s: seq<T>, t: nat, next: nat)
    requires next == t + 1 <= |s|
    ensures s[..next] == s[..t] + [s[t]]
  {
  }

  /** With distinct keys, looking up the key of an entry yields that entry's value. */
  lemma {:induction false} GetEntry(a: Assignment, k: int)
    requires DistinctKeys(a) && 0 <= k < |a|
    ensures Get(a, a[k].key) == Some(a[k].val)
  {
    if k > 0 {
      assert DistinctKeys(a[1..]);
      GetEntry(a[1..], k - 1);
    }
  }

  /** `a[v] = x`: an existing key keeps its place, a new key goes last. */
  function Put(a: Assignment, v: Variable, x: Val): (r: Assignment)
    ensures Keys(r) == Keys(a) + {v}
    ensures |r| == if v in Keys(a) then |a| else |a| + 1
    ensures DistinctKeys(a) ==> DistinctKeys(r)
    ensures forall k :: 0 <= k < |r| ==> r[k] == Entry(v, x) || r[k] in a
    ensures Entry(v, x) in r
  {
    if a == [] then
      assert Keys([Entry(v, x)]) == {v} by { assert [Entry(v, x)][0].key == v; }
      [Entry(v, x)]
    else if a[0].key == v then
      var r := [Entry(v, x)] + a[1..];
      assert Keys(r) == Keys(a) by {
        forall u | u in Keys(a) ensures u in Keys(r) {
          var k :| 0 <= k < |a| && a[k].key == u;
          assert r[k].key == u;
        }
      }
      r
    else
      var rest := Put(a[1..], v, x);
      var r := [a[0]] + rest;
      KeysSplit(a);
      KeysCons(a[0], rest);
      assert DistinctKeys(a) ==> DistinctKeys(r) by {
        if DistinctKeys(a) {
          DistinctTail(a);
          DistinctCons(a[0], rest);
        }
      }
      r
  }

  /** After `a[v] = x`, v maps to x and every other key keeps its value. */
  lemma {:induction false} PutGet(a: Assignment, v: Variable, x: Val, u: Variable)
    ensures Get(Put(a, v, x), u) == if u == v then Some(x) else Get(a, u)
  {
    if a != [] && a[0].key != v {
      PutGet(a[1..], v, x, u);
    }
  }

  /** `a.pop(v)` for a key v: its entry is removed and the others keep their order. */
  function Pop(a: Assignment, v: Variable): (r: Assignment)
    requires DistinctKeys(a)
    ensures Keys(r) == Keys(a) - {v}
    ensures DistinctKeys(r)
    ensures |r| == if v in Keys(a) then |a| - 1 else |a|
    ensures forall k :: 0 <= k < |r| ==> r[k] in a
  {
    if a == [] then []
    else
      KeysSplit(a);
      DistinctTail(a);
      if a[0].key == v then a[1..]
      else
        var rest := Pop(a[1..], v);
        var r := [a[0]] + rest;
        KeysCons(a[0], rest);
        DistinctCons(a[0], rest);
        r
  }

  /** After `a.pop(v)`, v is gone and every other key keeps its value. */
  lemma {:induction false} PopGet(a: Assignment, v: Variable, u: Variable)
    requires DistinctKeys(a)
    ensures Get(Pop(a, v), u) == if u == v then None else Get(a, u)
  {
    if a != [] {
      assert DistinctKeys(a[1..]);
      if a[0].key == v {
        if u == v {
          assert v !in Keys(a[1..]) by {
            forall k | 0 <= k < |a[1..]| ensures a[1..][k].key != v {
              assert a[1..][k] == a[k + 1];
            }
          }
        }
      } else {
        PopGet(a[1..], v, u);
      }
    }
  }

  /** A dict has as many entries as distinct keys. */
  lemma {:induction false} KeysCard(a: Assignment)
    requires DistinctKeys(a)
    ensures |Keys(a)| == |a|
  {
    if a != [] {
      var last := a[|a| - 1];
      var front := a[..|a| - 1];
      assert DistinctKeys(front);
      KeysCard(front);
      assert Keys(a) == Keys(front) + {last.key} by {
        forall u | u in Keys(a) ensures u in Keys(front) + {last.key} {
          var k :| 0 <= k < |a| && a[k].key == u;
          if k < |a| - 1 { assert front[k].key == u; }
        }
      }
      assert last.key !in Keys(front) by {
        forall k | 0 <= k < |front| ensures front[k].key != last.key {
          assert front[k] == a[k];
        }
      }
    }
  }

  /** A list of distinct elements has as many elements as its set. */
  lemma {:induction false} ListedCard<T>(s: seq<T>)
    requires NoDup(s)
    ensures |set x | x in s| == |s|
  {
    if s != [] {
      var front := s[..|s| - 1];
      ListedCard(front);
      assert (set x | x in s) == (set x | x in front) + {s[|s| - 1]};
    }
  }

  /** A subset as large as its superset is the whole superset. */
  lemma FullSubset<T>(a: set<T>, b: set<T>)
    requires a <= b && |a| == |b|
    ensures a == b
  {
    assert b == a + (b - a);
    assert |b - a| == |b| - |a| by {
      assert a * (b - a) == {};
    }
  }
}
