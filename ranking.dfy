/**
  Ranking: the table's pairs sorted by count with `sort_by`, then reversed.

  `sort_by` orders the (tag, count) pairs by count, lowest first; `reverse`
  turns that into highest first. Ruby's `sort_by` is not stable, so the
  order among equal counts is not part of the contract: the model sorts with
  an insertion sort and claims only that the result is a permutation of the
  table's pairs with non-increasing counts.
*/
module Ranking {
  import opened Counting

  /** A (tag, count) pair of the table. */
  datatype Entry = Entry(tag: string, count: nat)

  predicate Ascending(s: seq<Entry>) {
    forall i, j :: 0 <= i < j < |s| ==> s[i].count <= s[j].count
  }

  predicate NonIncreasing(s: seq<Entry>) {
    forall i, j :: 0 <= i < j < |s| ==> s[i].count >= s[j].count
  }

  /** The pairs of the table in the order the Hash yields them: its key order. */
  function Entries(t: TagTable): (es: seq<Entry>)
    ensures |es| == |t.order|
    ensures forall i :: 0 <= i < |es| ==> es[i].tag == t.order[i]
  {
    seq(|t.order|, i requires 0 <= i < |t.order| => Entry(t.order[i], Get(t, t.order[i])))
  }

  /** Places e before the first entry whose count is not smaller. */
  function Insert(e: Entry, s: seq<Entry>): (r: seq<Entry>)
    ensures multiset(r) == multiset(s) + multiset{e}
  {
    if s == [] then [e]
    else if e.count <= s[0].count then [e] + s
    else
      assert s == [s[0]] + s[1..];
      [s[0]] + Insert(e, s[1..])
  }

  /** Inserting into an ascending list leaves it ascending. */
  lemma {:induction false} InsertAscending(e: Entry, s: seq<Entry>)
    requires Ascending(s)
    ensures Ascending(Insert(e, s))
  {
    if s != [] && e.count > s[0].count {
      assert Ascending(s[1..]);
      InsertAscending(e, s[1..]);
      var rest := Insert(e, s[1..]);
      forall k | 0 <= k < |rest|
        ensures s[0].count <= rest[k].count
      {
        assert rest[k] in multiset(rest);
        assert rest[k] == e || rest[k] in s[1..];
      }
    }
  }

  /** The stand-in for sorting by count: the same pairs, lowest count first. */
  function SortByCount(s: seq<Entry>): (r: seq<Entry>)
    ensures Ascending(r)
    ensures multiset(r) == multiset(s)
  {
    if s == [] then []
    else
      assert s == [s[0]] + s[1..];
      var rest := SortByCount(s[1..]);
      InsertAscending(s[0], rest);
      Insert(s[0], rest)
  }

  /** `Array#reverse`. */
  function Reverse(s: seq<Entry>): (r: seq<Entry>)
    ensures |r| == |s|
    ensures forall i :: 0 <= i < |s| ==> r[i] == s[|s| - 1 - i]
    ensures multiset(r) == multiset(s)
  {
    if s == [] then []
    else
      assert s == [s[0]] + s[1..];
      Reverse(s[1..]) + [s[0]]
  }

  /** `sorted_tags`: a permutation of the table's pairs, highest count first. */
  function Rank(t: TagTable): (r: seq<Entry>)
    ensures NonIncreasing(r)
    ensures multiset(r) == multiset(Entries(t))
  {
    Reverse(SortByCount(Entries(t)))
  }

  lemma {:induction false} DistinctAtMostOnce<T>(s: seq<T>)
    requires forall i, j :: 0 <= i < j < |s| ==> s[i] != s[j]
    ensures forall x :: multiset(s)[x] <= 1
  {
    if s != [] {
      assert s == [s[0]] + s[1..];
      DistinctAtMostOnce(s[1..]);
      assert s[0] !in s[1..];
    }
  }

  lemma RepeatedTwice<T>(s: seq<T>, i: nat, j: nat)
    requires i < j < |s| && s[i] == s[j]
    ensures multiset(s)[s[i]] >= 2
  {
    assert s == s[..j] + [s[j]] + s[j + 1..];
    assert s[i] in s[..j];
  }

  /** The pairs of a well-formed table: one per key, carrying that key's count. */
  lemma EntriesOfTable(t: TagTable)
    requires Valid(t)
    ensures forall e :: e in Entries(t) <==> e.tag in t.count && e.count == t.count[e.tag]
    ensures forall i, j :: 0 <= i < j < |Entries(t)| ==> Entries(t)[i] != Entries(t)[j]
  {
    var es := Entries(t);
    forall e: Entry | e.tag in t.count && e.count == t.count[e.tag]
      ensures e in es
    {
      var i :| 0 <= i < |t.order| && t.order[i] == e.tag;
      assert es[i] == e;
    }
  }

  /**
    The ranking lists every key of the table exactly once, with its count, and
    nothing else.
  */
  lemma RankIsTable(t: TagTable)
    requires Valid(t)
    ensures |Rank(t)| == |t.order|
    ensures forall e :: e in Rank(t) <==> e.tag in t.count && e.count == t.count[e.tag]
    ensures forall i, j :: 0 <= i < j < |Rank(t)| ==> Rank(t)[i].tag != Rank(t)[j].tag
  {
    var r, es := Rank(t), Entries(t);
    EntriesOfTable(t);
    assert |r| == |multiset(r)| == |multiset(es)| == |es|;
    forall e: Entry ensures e in r <==> e in es {
      assert e in r <==> e in multiset(r);
      assert e in es <==> e in multiset(es);
    }
    DistinctAtMostOnce(es);
    forall i, j | 0 <= i < j < |r|
      ensures r[i].tag != r[j].tag
    {
      if r[i].tag == r[j].tag {
        assert r[i] in r && r[j] in r;
        assert r[i] == r[j];
        RepeatedTwice(r, i, j);
        assert false;
      }
    }
  }
}
