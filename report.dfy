/**
  The whole run on in-memory notes: skip the notes whose base name is
  excluded, count the tags of the others, rank the table, drop the excluded
  tags, and keep `limit` entries from the end `first_or_last` names.
*/
module TagReport {
  import opened Extraction
  import opened Counting
  import opened Ranking
  import opened Exclusion

  /** The test `filter` applies to each note. */
  function NoteKept<R>(opts: Options<R>, matches: (R, string) -> bool): Note -> bool {
    (n: Note) => !ExcludedFile(n.name, opts, matches)
  }

  /** The test `filter` applies to each ranked entry. */
  function EntryKept<R>(opts: Options<R>, matches: (R, string) -> bool): Entry -> bool {
    (e: Entry) => !ExcludedTag(e.tag, opts, matches)
  }

  /** The directory's entries whose base name no file-exclusion pattern matches. */
  function SelectNotes<R>(notes: seq<Note>, opts: Options<R>, matches: (R, string) -> bool): (r: seq<Note>)
    ensures forall n :: n in r <==> n in notes && !ExcludedFile(n.name, opts, matches)
  {
    FilterMultiset(notes, NoteKept(opts, matches));
    Filter(notes, NoteKept(opts, matches))
  }

  /** The ranked entries whose tag no tag-exclusion pattern matches, in ranking order. */
  function FilterTags<R>(sorted: seq<Entry>, opts: Options<R>, matches: (R, string) -> bool): (r: seq<Entry>)
    ensures forall e :: e in r <==> e in sorted && !ExcludedTag(e.tag, opts, matches)
    ensures NonIncreasing(sorted) ==> NonIncreasing(r)
  {
    FilterMultiset(sorted, EntryKept(opts, matches));
    FilterNonIncreasing(sorted, EntryKept(opts, matches));
    Filter(sorted, EntryKept(opts, matches))
  }

  /** Dropping entries from a list keeps the rest in order, so a ranking stays a ranking. */
  lemma {:induction false} FilterNonIncreasing(s: seq<Entry>, keep: Entry -> bool)
    ensures NonIncreasing(s) ==> NonIncreasing(Filter(s, keep))
  {
    if s != [] && NonIncreasing(s) {
      assert NonIncreasing(s[1..]);
      FilterNonIncreasing(s[1..], keep);
      FilterMultiset(s[1..], keep);
      var rest := Filter(s[1..], keep);
      forall k | 0 <= k < |rest|
        ensures s[0].count >= rest[k].count
      {
        assert rest[k] in s[1..];
      }
    }
  }

  /** A contiguous piece of a ranking is still a ranking, whichever end it is taken from. */
  lemma TakeEndNonIncreasing(s: seq<Entry>, end: End, n: nat)
    requires NonIncreasing(s)
    ensures NonIncreasing(TakeEnd(s, end, n))
  {
    var r := TakeEnd(s, end, n);
    var off := if end == First then 0 else |s| - |r|;
    forall i, j | 0 <= i < j < |r|
      ensures r[i].count >= r[j].count
    {
      assert r[i] == s[off + i] && r[j] == s[off + j];
    }
  }

  /** With `:first`, nothing left behind has a higher count than what was kept. */
  lemma MostKeepsHighest(s: seq<Entry>, n: nat)
    requires NonIncreasing(s)
    ensures var r := TakeEnd(s, First, n);
      forall i, j :: 0 <= i < |r| <= j < |s| ==> r[i].count >= s[j].count
  {
  }

  /** With `:last`, nothing left behind has a lower count than what was kept. */
  lemma LeastKeepsLowest(s: seq<Entry>, n: nat)
    requires NonIncreasing(s)
    ensures var r := TakeEnd(s, Last, n);
      forall i, j :: 0 <= i < |r| && 0 <= j < |s| - |r| ==> r[i].count <= s[j].count
  {
    var r := TakeEnd(s, Last, n);
    forall i, j | 0 <= i < |r| && 0 <= j < |s| - |r|
      ensures r[i].count <= s[j].count
    {
      assert r[i] == s[|s| - |r| + i];
    }
  }

  /** An entry outside a prefix of a ranking ranks no higher than any entry inside it. */
  lemma LeftOutOfPrefix(s: seq<Entry>, k: nat, e: Entry, y: Entry)
    requires NonIncreasing(s) && k <= |s|
    requires e in s[..k] && y in s && y !in s[..k]
    ensures y.count <= e.count
  {
    var i :| 0 <= i < k && s[..k][i] == e;
    var j :| 0 <= j < |s| && s[j] == y;
    assert s[i] == e;
  }

  /** An entry outside a suffix of a ranking ranks no lower than any entry inside it. */
  lemma LeftOutOfSuffix(s: seq<Entry>, k: nat, e: Entry, y: Entry)
    requires NonIncreasing(s) && k <= |s|
    requires e in s[k..] && y in s && y !in s[k..]
    ensures y.count >= e.count
  {
    var i :| 0 <= i < |s| - k && s[k..][i] == e;
    var j :| 0 <= j < |s| && s[j] == y;
    if j >= k {
      assert s[k..][j - k] == y;
    }
    assert s[k + i] == e;
  }

  /**
    An entry of the ranking that the cut leaves out is ranked no higher than
    every kept entry when the front is kept, and no lower when the back is.
  */
  lemma LeftOutBound(s: seq<Entry>, end: End, n: nat, e: Entry, y: Entry)
    requires NonIncreasing(s)
    requires e in TakeEnd(s, end, n) && y in s && y !in TakeEnd(s, end, n)
    ensures end == First ==> y.count <= e.count
    ensures end == Last ==> y.count >= e.count
  {
    var len := if n < |s| then n else |s|;
    if end == First {
      LeftOutOfPrefix(s, len, e, y);
    } else {
      LeftOutOfSuffix(s, |s| - len, e, y);
    }
  }

  /**
    What a printed report is, given the tags counted in the notes read and
    the filtered ranking `kept`: at most `limit` entries, a prefix of the
    ranking for "Most" and a suffix otherwise, in ranking order, one entry per
    tag, each an unexcluded counted tag with its number of occurrences. An
    unexcluded tag left out ranks no higher than every printed entry for
    "Most" and no lower for "Least", and with a limit of at least the
    ranking's length no unexcluded tag is left out.
  */
  predicate IsReport<R>(entries: seq<Entry>, kept: seq<Entry>, counted: seq<string>,
                        opts: Options<R>, matches: (R, string) -> bool)
  {
    && |entries| == (if opts.limit < |kept| then opts.limit else |kept|)
    && (opts.extreme == "Most" ==> entries == kept[..|entries|])
    && (opts.extreme != "Most" ==> entries == kept[|kept| - |entries|..])
    && NonIncreasing(entries)
    && (forall i, j :: 0 <= i < j < |entries| ==> entries[i].tag != entries[j].tag)
    && (forall e :: e in entries ==>
          e.tag in counted && e.count == multiset(counted)[e.tag] && !ExcludedTag(e.tag, opts, matches))
    && (opts.limit >= |kept| ==>
          forall x :: x in counted && !ExcludedTag(x, opts, matches) ==> Entry(x, multiset(counted)[x]) in entries)
    && (forall e, x :: (e in entries && x in counted && !ExcludedTag(x, opts, matches)
          && Entry(x, multiset(counted)[x]) !in entries) ==>
          if opts.extreme == "Most" then multiset(counted)[x] <= e.count else multiset(counted)[x] >= e.count)
  }

  /** How a run ends: the entries it prints, or the message the top-level rescue prints. */
  datatype Outcome = Report(entries: seq<Entry>) | Failure(message: string)

  /** The range of a C `long`, which `Array#first` and `Array#last` convert their argument to. */
  const LongMax: int := 0x7fff_ffff_ffff_ffff
  const LongMin: int := -0x8000_0000_0000_0000

  const NegativeSizeMessage: string := "negative array size"
  const BignumMessage: string := "bignum too big to convert into `long'"

  /**
    The pipeline from the notes of the directory to the printed entries.
    `Array#first` and `Array#last` raise RangeError on a limit outside the C
    `long` range and ArgumentError on a negative one; the rescue then reports
    the error instead of the entries.
  */
  method RankTags<R>(notes: seq<Note>, opts: Options<R>, matches: (R, string) -> bool)
    returns (out: Outcome)
    ensures out.Failure? <==> opts.limit < 0 || opts.limit > LongMax
    ensures out.Failure? ==>
      out.message == if LongMin <= opts.limit < 0 then NegativeSizeMessage else BignumMessage
    ensures out.Report? ==>
      var counted := AllTags(SelectNotes(notes, opts, matches));
      var kept := FilterTags(Rank(Tally(counted)), opts, matches);
      && out.entries == TakeEnd(kept, FirstOrLast(opts), opts.limit)
      && IsReport(out.entries, kept, counted, opts, matches)
  {
    var selected := SelectNotes(notes, opts, matches);
    var table := CountTags(selected);
    var sorted := Rank(table);
    var kept := FilterTags(sorted, opts, matches);
    if opts.limit < LongMin || opts.limit > LongMax {
      return Failure(BignumMessage);
    }
    if opts.limit < 0 {
      return Failure(NegativeSizeMessage);
    }
    var entries := TakeEnd(kept, FirstOrLast(opts), opts.limit);
    CutMeaning(AllTags(selected), opts, matches);
    out := Report(entries);
  }

  /**
    Cutting the filtered ranking of the counted tags at the configured end
    and limit yields a report.
  */
  lemma CutMeaning<R>(counted: seq<string>, opts: Options<R>, matches: (R, string) -> bool)
    requires opts.limit >= 0
    ensures var kept := FilterTags(Rank(Tally(counted)), opts, matches);
      IsReport(TakeEnd(kept, FirstOrLast(opts), opts.limit), kept, counted, opts, matches)
  {
    var kept := FilterTags(Rank(Tally(counted)), opts, matches);
    var end, n := FirstOrLast(opts), opts.limit;
    var r := TakeEnd(kept, end, n);
    KeptFromTable(counted, opts, matches);
    TakeEndNonIncreasing(kept, end, n);
    TakeEndDistinct(kept, end, n);
    forall e | e in r
      ensures e in kept
    {
      TakeEndMembers(kept, end, n, e);
    }
    if n >= |kept| {
      assert r == kept;
    }
    forall e, x | e in r && x in counted && !ExcludedTag(x, opts, matches) && Entry(x, multiset(counted)[x]) !in r
      ensures if opts.extreme == "Most" then multiset(counted)[x] <= e.count else multiset(counted)[x] >= e.count
    {
      LeftOutBound(kept, end, n, e, Entry(x, multiset(counted)[x]));
    }
  }

  lemma TakeEndDistinct(s: seq<Entry>, end: End, n: nat)
    requires forall i, j :: 0 <= i < j < |s| ==> s[i].tag != s[j].tag
    ensures var r := TakeEnd(s, end, n);
      forall i, j :: 0 <= i < j < |r| ==> r[i].tag != r[j].tag
  {
    var r := TakeEnd(s, end, n);
    var off := if end == First then 0 else |s| - |r|;
    forall i, j | 0 <= i < j < |r|
      ensures r[i].tag != r[j].tag
    {
      assert r[i] == s[off + i] && r[j] == s[off + j];
    }
  }

  lemma TakeEndMembers<T>(s: seq<T>, end: End, n: nat, x: T)
    requires x in TakeEnd(s, end, n)
    ensures x in s
  {
    var r := TakeEnd(s, end, n);
    var i :| 0 <= i < |r| && r[i] == x;
    if end == First {
      assert s[i] == x;
    } else {
      assert s[|s| - |r| + i] == x;
    }
  }

  /**
    What survives the tag filter: a ranking with one entry per tag, holding
    exactly the counted tags that no exclusion pattern matches, each with
    its number of occurrences.
  */
  lemma KeptFromTable<R>(counted: seq<string>, opts: Options<R>, matches: (R, string) -> bool)
    ensures var kept := FilterTags(Rank(Tally(counted)), opts, matches);
      && NonIncreasing(kept)
      && (forall i, j :: 0 <= i < j < |kept| ==> kept[i].tag != kept[j].tag)
      && (forall e :: e in kept ==>
            e.tag in counted && e.count == multiset(counted)[e.tag] && !ExcludedTag(e.tag, opts, matches))
      && (forall x :: x in counted && !ExcludedTag(x, opts, matches) ==>
            Entry(x, multiset(counted)[x]) in kept)
  {
    var table := Tally(counted);
    TallyValid(counted);
    TallyKeys(counted);
    RankIsTable(table);
    KeptDistinct(Rank(table), FilterTags(Rank(table), opts, matches), opts, matches);
  }

  /** Filtering a list with distinct tags leaves a list with distinct tags. */
  lemma KeptDistinct<R>(sorted: seq<Entry>, kept: seq<Entry>, opts: Options<R>, matches: (R, string) -> bool)
    requires forall i, j :: 0 <= i < j < |sorted| ==> sorted[i].tag != sorted[j].tag
    requires kept == FilterTags(sorted, opts, matches)
    ensures forall i, j :: 0 <= i < j < |kept| ==> kept[i].tag != kept[j].tag
  {
    var keep := EntryKept(opts, matches);
    FilterPreservesOrder(sorted, keep);
    var ix := KeptIndices(sorted, keep, 0);
    forall i, j | 0 <= i < j < |kept|
      ensures kept[i].tag != kept[j].tag
    {
      assert kept[i] == sorted[ix[i]] && kept[j] == sorted[ix[j]];
    }
  }

  /**
    A note whose base name is excluded is dropped before its text is read:
    with or without it in the directory, the same notes are counted.
  */
  lemma ExcludedNoteIgnored<R>(before: seq<Note>, note: Note, after: seq<Note>,
                               opts: Options<R>, matches: (R, string) -> bool)
    requires ExcludedFile(note.name, opts, matches)
    ensures SelectNotes(before + [note] + after, opts, matches) == SelectNotes(before + after, opts, matches)
    ensures Tally(AllTags(SelectNotes(before + [note] + after, opts, matches)))
         == Tally(AllTags(SelectNotes(before + after, opts, matches)))
  {
    FilterDropsRejected(before, note, after, NoteKept(opts, matches));
  }
}
