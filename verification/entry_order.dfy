/**
 * The order `sorted` uses on the `(key, value)` tuples that the range
 * searches collect: keys compared as integers, ties broken by comparing the
 * values, which are strings compared lexicographically by code point.
 */
module EntryOrder {

  type Entry = (int, string)

  /** String `<=`: lexicographic by code point, a proper prefix before the longer string. */
  predicate StrLe(a: string, b: string)
    decreases |a|
  {
    if a == [] then true
    else if b == [] then false
    else if a[0] != b[0] then a[0] < b[0]
    else StrLe(a[1..], b[1..])
  }

  /** Tuple `<=` on entries. */
  predicate EntryLe(p: Entry, q: Entry)
  {
    p.0 < q.0 || (p.0 == q.0 && StrLe(p.1, q.1))
  }

  lemma {:induction false} StrLeTotal(a: string, b: string)
    ensures StrLe(a, b) || StrLe(b, a)
    decreases |a|
  {
    if a != [] && b != [] && a[0] == b[0] {
      StrLeTotal(a[1..], b[1..]);
    }
  }

  lemma {:induction false} StrLeAntisymmetric(a: string, b: string)
    requires StrLe(a, b) && StrLe(b, a)
    ensures a == b
    decreases |a|
  {
    if a != [] {
      StrLeAntisymmetric(a[1..], b[1..]);
      assert a == [a[0]] + a[1..] && b == [b[0]] + b[1..];
    }
  }

  lemma {:induction false} StrLeTransitive(a: string, b: string, c: string)
    requires StrLe(a, b) && StrLe(b, c)
    ensures StrLe(a, c)
    decreases |a|
  {
    if a != [] && a[0] == b[0] && b[0] == c[0] {
      StrLeTransitive(a[1..], b[1..], c[1..]);
    }
  }

  /** Entry order is total, antisymmetric and transitive, so a sorted permutation is unique. */
  lemma EntryLeTotalOrder()
    ensures forall p, q :: EntryLe(p, q) || EntryLe(q, p)
    ensures forall p, q :: EntryLe(p, q) && EntryLe(q, p) ==> p == q
    ensures forall p, q, r :: EntryLe(p, q) && EntryLe(q, r) ==> EntryLe(p, r)
  {
    forall p: Entry, q: Entry
      ensures EntryLe(p, q) || EntryLe(q, p)
    {
      StrLeTotal(p.1, q.1);
    }
    forall p: Entry, q: Entry | EntryLe(p, q) && EntryLe(q, p)
      ensures p == q
    {
      StrLeAntisymmetric(p.1, q.1);
    }
    forall p: Entry, q: Entry, r: Entry | EntryLe(p, q) && EntryLe(q, r)
      ensures EntryLe(p, r)
    {
      if p.0 == q.0 == r.0 {
        StrLeTransitive(p.1, q.1, r.1);
      }
    }
  }

  /** Each entry is at most the next one. */
  predicate Sorted(s: seq<Entry>)
  {
    forall i :: 0 < i < |s| ==> EntryLe(s[i - 1], s[i])
  }

  /** `x` put into sorted `s` in front of the first entry it does not exceed. */
  function InsertSorted(x: Entry, s: seq<Entry>): (r: seq<Entry>)
    requires Sorted(s)
    ensures Sorted(r)
    ensures multiset(r) == multiset(s) + multiset{x}
    ensures |r| == |s| + 1
    ensures r[0] == x || (s != [] && r[0] == s[0])
  {
    if s == [] || EntryLe(x, s[0]) then
      [x] + s
    else
      StrLeTotal(x.1, s[0].1);
      var t := InsertSorted(x, s[1..]);
      assert s == [s[0]] + s[1..];
      [s[0]] + t
  }

  /** Python's `sorted` on the collected entries. */
  function SortEntries(s: seq<Entry>): (r: seq<Entry>)
    ensures Sorted(r)
    ensures multiset(r) == multiset(s)
    ensures |r| == |s|
  {
    if s == [] then []
    else
      assert s == [s[0]] + s[1..];
      InsertSorted(s[0], SortEntries(s[1..]))
  }

  /** In a sorted sequence every entry is at most every later one. */
  lemma {:induction false} SortedPairwise(s: seq<Entry>)
    requires Sorted(s)
    ensures forall i, j :: 0 <= i < j < |s| ==> EntryLe(s[i], s[j])
  {
    EntryLeTotalOrder();
    forall i, j | 0 <= i < j < |s|
      ensures EntryLe(s[i], s[j])
    {
      var k := i + 1;
      while k < j
        invariant i < k <= j
        invariant EntryLe(s[i], s[k])
      {
        k := k + 1;
      }
    }
  }

  /** Sorted output lists the keys in ascending order. */
  lemma SortedKeysAscending(s: seq<Entry>)
    requires Sorted(s)
    ensures forall i, j :: 0 <= i < j < |s| ==> s[i].0 <= s[j].0
  {
    SortedPairwise(s);
  }

  /**
   * Two sorted arrangements of the same entries are equal, so SortEntries
   * agrees with any sorting algorithm.
   */
  lemma {:induction false} SortedUnique(a: seq<Entry>, b: seq<Entry>)
    requires Sorted(a) && Sorted(b) && multiset(a) == multiset(b)
    ensures a == b
    decreases |a|
  {
    if a != [] {
      assert a[0] in multiset(a);
      assert |b| > 0;
      EntryLeTotalOrder();
      SortedPairwise(a);
      SortedPairwise(b);
      assert b[0] in multiset(a);
      var i :| 0 <= i < |a| && a[i] == b[0];
      var j :| 0 <= j < |b| && b[j] == a[0];
      assert EntryLe(a[0], b[0]) by { assert i == 0 || EntryLe(a[0], a[i]); }
      assert EntryLe(b[0], a[0]) by { assert j == 0 || EntryLe(b[0], b[j]); }
      assert a[0] == b[0];
      assert a == [a[0]] + a[1..] && b == [b[0]] + b[1..];
      assert multiset(a) == multiset{a[0]} + multiset(a[1..]);
      assert multiset(b) == multiset{a[0]} + multiset(b[1..]);
      forall e | true
        ensures multiset(a[1..])[e] == multiset(b[1..])[e]
      {
        assert multiset(a)[e] == multiset{a[0]}[e] + multiset(a[1..])[e];
        assert multiset(b)[e] == multiset{a[0]}[e] + multiset(b[1..])[e];
      }
      assert multiset(a[1..]) == multiset(b[1..]);
      SortedUnique(a[1..], b[1..]);
    } else {
      assert |b| == |multiset(b)| == 0;
    }
  }

  /** The values of entries, in order. */
  function Values(s: seq<Entry>): seq<string>
  {
    seq(|s|, i requires 0 <= i < |s| => s[i].1)
  }
}
