/**
  Configuration, exclusion tests and the list operations the report is built
  with: `excluded?`, `excluded_tag?`, `excluded_file?`, `first_or_last`,
  `Array#filter` and `Array#first` / `Array#last`.

  Whether a pattern matches a string (Ruby's `regexp =~ string`) is left
  uninterpreted: every operation takes it as a parameter `matches`.
*/
module Exclusion {

  /** The run's configuration; R is the type of exclusion patterns. */
  datatype Options<R> = Options(
    fileExclusions: seq<R>,
    tagExclusions: seq<R>,
    extreme: string,   // "Most", or "Least" after --reverse
    limit: int)        // as parsed by OptionParser's Integer, so possibly negative

  const DefaultExtreme: string := "Most"
  const DefaultLimit: int := 5

  /** `excluded?`: some pattern of the list matches the item. */
  function Excluded<R>(item: string, patterns: seq<R>, matches: (R, string) -> bool): (r: bool)
    ensures r <==> exists k :: 0 <= k < |patterns| && matches(patterns[k], item)
  {
    if patterns == [] then false
    else if matches(patterns[0], item) then true
    else
      var rest := Excluded(item, patterns[1..], matches);
      assert rest ==> exists k :: 0 <= k < |patterns| && matches(patterns[k], item) by {
        if rest {
          var k :| 0 <= k < |patterns[1..]| && matches(patterns[1..][k], item);
          assert matches(patterns[k + 1], item);
        }
      }
      rest
  }

  /** A tag is dropped from the report when a tag-exclusion pattern matches it. */
  function ExcludedTag<R>(tag: string, opts: Options<R>, matches: (R, string) -> bool): (r: bool)
    ensures r <==> exists k :: 0 <= k < |opts.tagExclusions| && matches(opts.tagExclusions[k], tag)
  {
    Excluded(tag, opts.tagExclusions, matches)
  }

  /** A note is skipped when a file-exclusion pattern matches its base name. */
  function ExcludedFile<R>(baseName: string, opts: Options<R>, matches: (R, string) -> bool): (r: bool)
    ensures r <==> exists k :: 0 <= k < |opts.fileExclusions| && matches(opts.fileExclusions[k], baseName)
  {
    Excluded(baseName, opts.fileExclusions, matches)
  }

  /** Which end of the ranking the report keeps. */
  datatype End = First | Last

  /** `first_or_last`: `:first` exactly for extreme "Most", `:last` for anything else. */
  function FirstOrLast<R>(opts: Options<R>): (e: End)
    ensures e == First <==> opts.extreme == "Most"
    ensures e == Last <==> opts.extreme != "Most"
  {
    if opts.extreme == "Most" then First else Last
  }

  /** `Array#filter`: the elements that satisfy keep, in their original order. */
  function Filter<T(!new)>(s: seq<T>, keep: T -> bool): (r: seq<T>)
    ensures |r| <= |s|
  {
    if s == [] then [] else (if keep(s[0]) then [s[0]] else []) + Filter(s[1..], keep)
  }

  /**
    Filtering keeps every element that satisfies keep as often as the input
    holds it, and drops every other element.
  */
  lemma {:induction false} FilterMultiset<T(!new)>(s: seq<T>, keep: T -> bool)
    ensures forall x :: multiset(Filter(s, keep))[x] == if keep(x) then multiset(s)[x] else 0
    ensures forall x :: x in Filter(s, keep) <==> x in s && keep(x)
  {
    if s != [] {
      assert s == [s[0]] + s[1..];
      FilterMultiset(s[1..], keep);
    }
  }

  /** The positions of s whose elements Filter keeps, in increasing order. */
  function KeptIndices<T>(s: seq<T>, keep: T -> bool, from: nat): (ix: seq<nat>)
    requires from <= |s|
    ensures forall k :: 0 <= k < |ix| ==> from <= ix[k] < |s|
    ensures forall k, l :: 0 <= k < l < |ix| ==> ix[k] < ix[l]
    ensures forall i :: from <= i < |s| ==> (i in ix <==> keep(s[i]))
    decreases |s| - from
  {
    if from == |s| then []
    else (if keep(s[from]) then [from] else []) + KeptIndices(s, keep, from + 1)
  }

  lemma {:induction false} FilterAtKeptIndices<T(!new)>(s: seq<T>, keep: T -> bool, from: nat)
    requires from <= |s|
    ensures |Filter(s[from..], keep)| == |KeptIndices(s, keep, from)|
    ensures forall k :: 0 <= k < |KeptIndices(s, keep, from)| ==>
      Filter(s[from..], keep)[k] == s[KeptIndices(s, keep, from)[k]]
    decreases |s| - from
  {
    if from < |s| {
      assert s[from..][1..] == s[from + 1..];
      FilterAtKeptIndices(s, keep, from + 1);
    }
  }

  /**
    Filtering keeps the elements that satisfy keep and only those, each at a
    position of the input, and in the input's order.
  */
  lemma FilterPreservesOrder<T(!new)>(s: seq<T>, keep: T -> bool)
    ensures var r, ix := Filter(s, keep), KeptIndices(s, keep, 0);
      && |r| == |ix|
      && (forall k :: 0 <= k < |ix| ==> r[k] == s[ix[k]])
      && (forall k, l :: 0 <= k < l < |ix| ==> ix[k] < ix[l])
      && (forall i :: 0 <= i < |s| ==> (i in ix <==> keep(s[i])))
  {
    assert s[0..] == s;
    FilterAtKeptIndices(s, keep, 0);
  }

  /** Filtering a concatenation filters each part. */
  lemma {:induction false} FilterAppend<T(!new)>(a: seq<T>, b: seq<T>, keep: T -> bool)
    ensures Filter(a + b, keep) == Filter(a, keep) + Filter(b, keep)
  {
    if a != [] {
      assert (a + b)[0] == a[0] && (a + b)[1..] == a[1..] + b;
      FilterAppend(a[1..], b, keep);
      var head := if keep(a[0]) then [a[0]] else [];
      assert Filter(a + b, keep) == head + (Filter(a[1..], keep) + Filter(b, keep));
    } else {
      assert a + b == b;
    }
  }

  /** An element that fails the test leaves the result unchanged wherever it stands. */
  lemma FilterDropsRejected<T(!new)>(a: seq<T>, x: T, b: seq<T>, keep: T -> bool)
    requires !keep(x)
    ensures Filter(a + [x] + b, keep) == Filter(a + b, keep)
  {
    FilterAppend(a + [x], b, keep);
    FilterAppend(a, [x], keep);
    FilterAppend(a, b, keep);
    assert Filter([x], keep) == [] by {
      assert [x][1..] == [];
    }
  }

  /** `Array#first(n)` or `Array#last(n)` for n >= 0: at most n elements from that end. */
  function TakeEnd<T>(s: seq<T>, end: End, n: nat): (r: seq<T>)
    ensures |r| == if n < |s| then n else |s|
    ensures end == First ==> s == r + s[|r|..]
    ensures end == Last ==> s == s[..|s| - |r|] + r
  {
    var len := if n < |s| then n else |s|;
    if end == First then s[..len] else s[|s| - len..]
  }
}
