# count_tags: a Dafny model of the tag counter

`count_tags.rb` reads every note of an Obsidian vault directory. It skips the
notes whose base name a file-exclusion pattern matches. In the others it
finds the tags: a space, a `#`, and a run of non-whitespace characters. It
counts how often each tag occurs, ranks the tags by count, drops the tags a
tag-exclusion pattern matches, and prints the first (`Most`) or the last
(`Least`) `limit` entries of the ranking.

The model has five modules, one file each:

- `Extraction` (extraction.dfy): the regular-expression scan for tags as a
  scanner over the text.
  - `Extract` is proved equal to an independent reference definition
    (`TagsFrom`: one tag per index where the pattern can match).
  - Its result is characterised exactly by `TagOccurrence`.
  - Worked examples cover the edge cases: a tag at the start of the text or
    after a newline or tab is not found, and trailing punctuation is part of
    the tag.
- `Counting` (counting.dfy): the counting loop as an imperative method,
  `CountTags`, with loop invariants.
  - The method is proved against the specification function `Tally`.
  - `Tally` models a Ruby Hash with default 0. It remembers the order in
    which keys were first stored, as a Ruby Hash does.
  - Proved: each count equals the number of occurrences, every count is at
    least one, and the counts sum to the number of tags found.
- `Ranking` (ranking.dfy): sorting by count, then reversing. Proved: the
  result is a permutation of the table's pairs, with non-increasing counts,
  one entry per tag.
- `Exclusion` (exclusion.dfy): the options record and the exclusion tests
  (`excluded?`, `excluded_tag?`, `excluded_file?`). It also holds:
  - `first_or_last`;
  - `Array#filter`, with order, membership and multiplicity properties;
  - `Array#first` / `Array#last` as `TakeEnd`.
- `TagReport` (report.dfy): the whole run, `RankTags`, from the notes to the
  entries that would be printed, including the errors a negative or
  oversized limit raises. Also here: the lemma that an excluded note contributes nothing.

Whether a regular expression matches a string is not modelled. Every
operation that tests a pattern takes a function `matches` as a parameter, and
patterns are of an arbitrary type `R`.

Three behaviours of the code are worth stating outright:

- With `--reverse` the report keeps `last(limit)` of the descending ranking,
  which keeps highest-first order, so the `Least` report is not ascending
  (`TagReport.RankTags`; `TagReport.LeastKeepsLowest` says which entries are
  kept).
- A `#` at the very start of a text has no space before it, so
  `#beta #gamma` yields only `gamma` (`Extraction.ExampleLeadingHash`). The
  two notes `note #alpha #beta #alpha` and `#beta #gamma` therefore count
  alpha 2, beta 1 and gamma 1 (`Counting.ExampleTwoNotes`).
- `first`/`last` convert the limit to a C `long`. A limit from 0 up to
  2^63 - 1 cuts the ranking, and 0 gives an empty report. A limit from
  -2^63 to -1 raises `ArgumentError` ("negative array size"). A limit outside
  the `long` range, which OptionParser's `Integer` accepts, raises
  `RangeError` ("bignum too big to convert into `long'"). The top-level
  rescue catches both, and the model returns them as `Failure` with that
  message.

## Model

| member | source | states |
|---|---|---|
| Extraction.RunEnd | count_tags.rb:109 | the greedy `[^\s]+` run stops at the first whitespace character or the end of the text, and contains no whitespace |
| Extraction.TagAt | count_tags.rb:109 | a match with its leading space and `#` removed is a non-empty run without whitespace |
| Extraction.ScanFrom | count_tags.rb:109 | every tag the non-overlapping scan reports from a position on is non-empty and free of whitespace |
| Extraction.Extract | count_tags.rb:109 | every extracted tag is non-empty and contains no Ruby whitespace (space, tab, LF, CR, FF, VT) |
| Extraction.ExtractIsReference | count_tags.rb:109 | resuming the scan at the end of each match finds exactly one tag per index where ` #` followed by a non-whitespace character occurs, in text order |
| Extraction.ScanFromIsTagsFrom | count_tags.rb:109 | from any position, the scan and the per-index reference definition agree |
| Extraction.NoMatchInsideRun | count_tags.rb:109 | no match can begin inside another match's tag |
| Extraction.TagOccurrence | count_tags.rb:109 | t is extracted from a text if and only if the text contains space, `#`, t, then whitespace or the end of the text, and t is a non-empty run without whitespace |
| Extraction.TagOccursAtIsMatch | count_tags.rb:109 | an occurrence of space, `#`, t and a terminator is exactly a match whose tag is t |
| Extraction.TagsFromMembership | count_tags.rb:109 | a string is among the reference tags exactly when some match position carries it |
| Extraction.NoTagWithoutSpaceHash | count_tags.rb:109 | a text in which no `#` directly follows a space has no tags (a `#` at the start, or after a tab or newline, does not count) |
| Extraction.ExtractAppend | count_tags.rb:109 | when the second part of a text begins with a space, its tags are the first part's tags followed by the second part's |
| Extraction.TagsFromShift | count_tags.rb:109 | the matches of the second part of a text are the same seen from inside the whole text |
| Extraction.TagsFromBeforeSpace | count_tags.rb:109 | a following space does not change the matches of the first part |
| Extraction.SingleTag | count_tags.rb:109 | a space, `#` and a tag make exactly that one tag |
| Extraction.ExampleSimple | count_tags.rb:109 | "hello #world today" yields ["world"] |
| Extraction.ExampleTextStart | count_tags.rb:109 | "#start no-space" yields no tag |
| Extraction.ExampleAfterNewlineOrTab | count_tags.rb:109 | a `#` after a newline or a tab yields no tag |
| Extraction.ExamplePunctuation | count_tags.rb:109 | "see #tag, now" yields ["tag,"]: punctuation stays in the tag |
| Extraction.ExampleTwoTags | count_tags.rb:109 | "a #x #y b" yields ["x", "y"] |
| Extraction.ExampleRepeatedTag | count_tags.rb:109 | "note #alpha #beta #alpha" yields ["alpha", "beta", "alpha"], repeats kept |
| Extraction.ExampleLeadingHash | count_tags.rb:109 | "#beta #gamma" yields ["gamma"] only |
| Counting.Increment | count_tags.rb:111 | `+= 1` on a default-0 Hash: this tag's count rises by one, no other count changes, a new key goes last and a known key keeps its place |
| Counting.IncrementValid | count_tags.rb:111 | incrementing keeps the table well formed: distinct keys, order and counts agree, all counts positive |
| Counting.TallyValid | count_tags.rb:101-113 | every table the counting produces is well formed |
| Counting.TallyCounts | count_tags.rb:101-113 | each tag's count equals the number of times it occurs among the counted tags (0 if never) |
| Counting.TallyKeys | count_tags.rb:101-113 | the table's keys are exactly the tags found, each with a count of at least one |
| Counting.SumIncrement | count_tags.rb:111 | each increment adds exactly one to the sum of the counts |
| Counting.TallyTotal | count_tags.rb:101-113 | the counts add up to the number of tags found |
| Counting.CountTags | count_tags.rb:101-113 | the nested loops over notes and tags build the table of the tags of all notes in order: keys are the tags found, counts are occurrence numbers (at least one), the sum is the total |
| Counting.ExampleTwoNotes | count_tags.rb:107-113 | notes "note #alpha #beta #alpha" and "#beta #gamma" count alpha 2, beta 1, gamma 1 |
| Ranking.Entries | count_tags.rb:115 | the table enumerates one pair per key, in key insertion order |
| Ranking.Insert | count_tags.rb:115 | inserting adds exactly one entry to the multiset of entries |
| Ranking.InsertAscending | count_tags.rb:115 | inserting into a list ascending by count keeps it ascending |
| Ranking.SortByCount | count_tags.rb:115 | `sort_by` count: a permutation of the pairs, ascending by count |
| Ranking.Reverse | count_tags.rb:115 | `reverse`: same length, element i is element n-1-i of the input, same multiset |
| Ranking.Rank | count_tags.rb:115 | the ranking is a permutation of the table's pairs with non-increasing counts |
| Ranking.RankIsTable | count_tags.rb:115 | for a well-formed table, the ranking lists every key once with its count and nothing else |
| Exclusion.Excluded | count_tags.rb:71-73 | an item is excluded if and only if some pattern of the list matches it |
| Exclusion.ExcludedTag | count_tags.rb:75-77 | a tag is excluded if and only if some tag-exclusion pattern matches it |
| Exclusion.ExcludedFile | count_tags.rb:79-81 | a note is excluded if and only if some file-exclusion pattern matches its base name |
| Exclusion.FirstOrLast | count_tags.rb:63-69 | `:first` exactly when extreme is "Most", `:last` for every other value |
| Exclusion.Filter | count_tags.rb:104 | filtering never lengthens a list |
| Exclusion.FilterMultiset | count_tags.rb:104 | filtering keeps each passing element as often as the input holds it and removes every failing one |
| Exclusion.KeptIndices | count_tags.rb:120 | the kept positions are increasing and are exactly the positions whose element passes |
| Exclusion.FilterPreservesOrder | count_tags.rb:120 | the filtered list is the passing elements at increasing positions of the input, in input order |
| Exclusion.FilterAppend | count_tags.rb:104 | filtering a concatenation filters each part |
| Exclusion.FilterDropsRejected | count_tags.rb:104 | an element that fails the test does not change the result, wherever it stands |
| Exclusion.TakeEnd | count_tags.rb:121 | `first(n)`/`last(n)` for n >= 0: min(n, length) elements, a prefix for `:first` and a suffix for `:last`, in the original order |
| TagReport.SelectNotes | count_tags.rb:103-105 | the notes read are exactly the directory entries whose base name is not excluded |
| TagReport.FilterTags | count_tags.rb:119-120 | the entries kept are exactly those whose tag is not excluded; a ranking stays non-increasing |
| TagReport.FilterNonIncreasing | count_tags.rb:119-120 | filtering a non-increasing ranking leaves a non-increasing ranking |
| TagReport.TakeEndNonIncreasing | count_tags.rb:121 | the first or last n entries of a ranking are still in ranking order (neither end is re-reversed) |
| TagReport.MostKeepsHighest | count_tags.rb:121 | with `:first`, no entry left out has a higher count than an entry kept |
| TagReport.LeastKeepsLowest | count_tags.rb:121 | with `:last`, no entry left out has a lower count than an entry kept |
| TagReport.KeptFromTable | count_tags.rb:101-120 | after ranking and tag filtering: non-increasing, distinct tags, and the entries are exactly the counted tags no tag pattern excludes, each with its occurrence count |
| TagReport.LeftOutOfPrefix | count_tags.rb:121 | an entry outside a prefix of a ranking has a count no higher than any entry inside it |
| TagReport.LeftOutOfSuffix | count_tags.rb:121 | an entry outside a suffix of a ranking has a count no lower than any entry inside it |
| TagReport.LeftOutBound | count_tags.rb:121 | an entry that `first(n)` leaves out ranks no higher than every kept entry; one that `last(n)` leaves out ranks no lower |
| TagReport.CutMeaning | count_tags.rb:101-121 | for a non-negative limit, cutting the filtered ranking at the configured end gives a report: min(limit, kept) entries, prefix for "Most", suffix otherwise, non-increasing, one per tag, each an unexcluded counted tag with its count. Every unexcluded tag left out ranks no higher ("Most") or no lower ("Least") than every printed entry, and none is left out when the limit covers the ranking |
| TagReport.RankTags | count_tags.rb:101-135 | the run fails exactly when the limit is negative or above the C `long` maximum. The message is "negative array size" for a limit in [-2^63, -1] and the `RangeError` bignum message outside the `long` range. Otherwise the result is a report of the filtered ranking of the unexcluded notes' tags, as `TagReport.CutMeaning` describes |
| TagReport.ExcludedNoteIgnored | count_tags.rb:103-113 | adding a note whose base name is excluded changes neither the notes read nor the counts |

## Left out

- Command-line parsing with OptionParser (count_tags.rb:8-61): the options arrive as an `Options` value. `DefaultExtreme` and `DefaultLimit` record the defaults "Most" and 5. The default patterns are regular expressions, which are not modelled.
- The `-f` and `-t` overrides replace the pattern lists with plain strings. Under Ruby, `String =~ String` raises a `TypeError`, which the rescue would catch. Patterns are abstract here, so this failure is not modelled.
- The `--help` handler (count_tags.rb:52-55), the `--verbose` printing and the usage exit when no directory is given (count_tags.rb:86-97): all I/O.
- Reading the directory and the note files (count_tags.rb:99, 103-108): the model takes the directory's entries as (base name, text) pairs, in the order `children` returns them.
- Printing the header and the report blocks (count_tags.rb:117-129), and the error output of the rescue (count_tags.rb:131-135). The errors the rescue catches inside the modelled code are the negative limit and the limit outside the C `long` range, modelled as `Failure`. The model uses the message wording of Rubies before 3.4, which quote `long' with a backtick; later versions write 'long'. File-system errors (unreadable files, missing directory) belong to the I/O left out.
- Regular-expression matching for exclusions (`=~`): a parameter `matches`, so the model holds for any matcher.
- Ranking.SortByCount: the order among tags with equal counts is not modelled. With equal counts Ruby's `sort_by` is unstable, so the model sorts with an insertion sort and its contracts claim only permutation and order by count.
- Text encoding: notes are modelled as sequences of characters. Invalid byte sequences, which would make Ruby's `scan` raise, are not modelled.
