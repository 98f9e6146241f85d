/**
  Counting: a Hash with default value 0, in which every tag the scan finds in
  every note adds one to that tag's entry.

  A Ruby Hash remembers the order in which its keys were first stored, and
  `sort_by` enumerates the pairs in that order, so the table keeps the key
  order beside the counts.
*/
module Counting {
  import opened Extraction

  /** A note as the pipeline sees it: its base name and its text. */
  datatype Note = Note(name: string, content: string)

  /** The count table: keys in insertion order, and the count of each key. */
  datatype TagTable = TagTable(order: seq<string>, count: map<string, nat>)

  const EmptyTable: TagTable := TagTable([], map[])

  /**
    The table is well formed: every key is listed once in the order, nothing
    else is listed, and every stored count is positive.
  */
  ghost predicate Valid(t: TagTable) {
    && (forall i, j :: 0 <= i < j < |t.order| ==> t.order[i] != t.order[j])
    && (forall x :: x in t.order <==> x in t.count)
    && (forall x :: x in t.count ==> t.count[x] >= 1)
  }

  /** Looking a tag up in the table: 0 for a key never stored. */
  function Get(t: TagTable, tag: string): nat {
    if tag in t.count then t.count[tag] else 0
  }

  /**
    Counting one occurrence: the tag's count goes up by one and no other count
    changes; a new key is stored after all the others, a known key keeps its
    place.
  */
  function Increment(t: TagTable, tag: string): (r: TagTable)
    ensures Get(r, tag) == Get(t, tag) + 1
    ensures forall x :: x != tag ==> Get(r, x) == Get(t, x)
    ensures r.order == if tag in t.count then t.order else t.order + [tag]
  {
    var order := if tag in t.count then t.order else t.order + [tag];
    TagTable(order, t.count[tag := Get(t, tag) + 1])
  }

  /** Incrementing keeps the table well formed. */
  lemma IncrementValid(t: TagTable, tag: string)
    requires Valid(t)
    ensures Valid(Increment(t, tag))
  {
  }

  /** The table that counting the tags one after the other leaves behind. */
  function Tally(tags: seq<string>): TagTable
    decreases |tags|
  {
    if tags == [] then EmptyTable
    else Increment(Tally(tags[..|tags| - 1]), tags[|tags| - 1])
  }

  /** Every table counting produces is well formed. */
  lemma {:induction false} TallyValid(tags: seq<string>)
    ensures Valid(Tally(tags))
    decreases |tags|
  {
    if tags != [] {
      TallyValid(tags[..|tags| - 1]);
      IncrementValid(Tally(tags[..|tags| - 1]), tags[|tags| - 1]);
    }
  }

  /** Counting one more tag of the current note. */
  lemma TallyStep(before: seq<string>, tags: seq<string>, j: nat)
    requires j < |tags|
    ensures Tally(before + tags[..j + 1]) == Increment(Tally(before + tags[..j]), tags[j])
  {
    var xs := before + tags[..j + 1];
    assert xs[..|xs| - 1] == before + tags[..j];
  }

  /** Every tag the scan finds in the notes, note after note. */
  function AllTags(notes: seq<Note>): seq<string>
    decreases |notes|
  {
    if notes == [] then []
    else AllTags(notes[..|notes| - 1]) + Extract(notes[|notes| - 1].content)
  }

  lemma AllTagsSnoc(notes: seq<Note>, n: nat)
    requires n < |notes|
    ensures AllTags(notes[..n + 1]) == AllTags(notes[..n]) + Extract(notes[n].content)
  {
    assert notes[..n + 1][..n] == notes[..n];
  }

  /** Each count is the number of times its tag occurs in the counted sequence. */
  lemma {:induction false} TallyCounts(tags: seq<string>)
    ensures forall x :: Get(Tally(tags), x) == multiset(tags)[x]
    decreases |tags|
  {
    if tags != [] {
      var init, last := tags[..|tags| - 1], tags[|tags| - 1];
      assert tags == init + [last];
      TallyCounts(init);
    }
  }

  /** The table's keys are exactly the counted tags, each with a count of at least one. */
  lemma TallyKeys(tags: seq<string>)
    ensures forall x :: x in Tally(tags).count <==> x in tags
    ensures forall x :: x in Tally(tags).count ==> Tally(tags).count[x] == multiset(tags)[x] >= 1
  {
    TallyCounts(tags);
    TallyValid(tags);
  }

  /** The sum of the counts of the listed keys. */
  function SumOf(keys: seq<string>, t: TagTable): nat
    decreases |keys|
  {
    if keys == [] then 0 else Get(t, keys[0]) + SumOf(keys[1..], t)
  }

  /** The sum of all counts in the table. */
  function Sum(t: TagTable): nat {
    SumOf(t.order, t)
  }

  lemma {:induction false} SumOfAppend(keys: seq<string>, x: string, t: TagTable)
    ensures SumOf(keys + [x], t) == SumOf(keys, t) + Get(t, x)
    decreases |keys|
  {
    if keys == [] {
      assert [] + [x] == [x];
    } else {
      assert (keys + [x])[1..] == keys[1..] + [x];
      SumOfAppend(keys[1..], x, t);
    }
  }

  lemma {:induction false} SumOfIncrement(keys: seq<string>, t: TagTable, tag: string)
    requires forall i, j :: 0 <= i < j < |keys| ==> keys[i] != keys[j]
    ensures SumOf(keys, Increment(t, tag)) == SumOf(keys, t) + (if tag in keys then 1 else 0)
    decreases |keys|
  {
    if keys != [] {
      SumOfIncrement(keys[1..], t, tag);
    }
  }

  /** Each increment adds exactly one to the sum of the counts. */
  lemma SumIncrement(t: TagTable, tag: string)
    requires Valid(t)
    ensures Sum(Increment(t, tag)) == Sum(t) + 1
  {
    var r := Increment(t, tag);
    SumOfIncrement(t.order, t, tag);
    if tag !in t.count {
      SumOfAppend(t.order, tag, r);
    }
  }

  /** The counts add up to the number of counted tags. */
  lemma {:induction false} TallyTotal(tags: seq<string>)
    ensures Sum(Tally(tags)) == |tags|
    decreases |tags|
  {
    if tags != [] {
      TallyTotal(tags[..|tags| - 1]);
      TallyValid(tags[..|tags| - 1]);
      SumIncrement(Tally(tags[..|tags| - 1]), tags[|tags| - 1]);
    }
  }

  /** What a tally of a sequence of tags holds, gathered for the counting loop. */
  lemma TallyMeaning(tags: seq<string>)
    ensures Valid(Tally(tags))
    ensures forall x :: x in Tally(tags).count <==> x in tags
    ensures forall x :: x in Tally(tags).count ==> Tally(tags).count[x] == multiset(tags)[x] >= 1
    ensures Sum(Tally(tags)) == |tags|
  {
    TallyValid(tags);
    TallyKeys(tags);
    TallyTotal(tags);
  }

  /**
    The counting loop: every tag of every note, in order, increments its
    entry. The result counts each tag as often as it occurs in the notes.
  */
  method CountTags(notes: seq<Note>) returns (table: TagTable)
    ensures table == Tally(AllTags(notes))
    ensures Valid(table)
    ensures forall x :: x in table.count <==> x in AllTags(notes)
    ensures forall x :: x in table.count ==> table.count[x] == multiset(AllTags(notes))[x] >= 1
    ensures Sum(table) == |AllTags(notes)|
  {
    table := EmptyTable;
    var n := 0;
    while n < |notes|
      invariant 0 <= n <= |notes|
      invariant table == Tally(AllTags(notes[..n]))
    {
      var tags := Extract(notes[n].content);
      ghost var before := AllTags(notes[..n]);
      var j := 0;
      assert before + tags[..j] == before;
      while j < |tags|
        invariant 0 <= j <= |tags|
        invariant table == Tally(before + tags[..j])
      {
        TallyStep(before, tags, j);
        table := Increment(table, tags[j]);
        j := j + 1;
      }
      assert tags[..j] == tags;
      AllTagsSnoc(notes, n);
      n := n + 1;
    }
    assert notes[..n] == notes;
    TallyMeaning(AllTags(notes));
  }

  lemma AllTagsOfTwo(one: Note, two: Note)
    ensures AllTags([one, two]) == Extract(one.content) + Extract(two.content)
  {
    var notes := [one, two];
    assert notes[..1] == [one] && [one][..0] == [];
    assert AllTags([one]) == [] + Extract(one.content) == Extract(one.content);
  }

  /** Counting x, y, x from one note and z from another. */
  lemma CountsOfTwoNotes(one: Note, two: Note, x: string, y: string, z: string)
    requires x != y && y != z && x != z
    requires Extract(one.content) == [x, y, x] && Extract(two.content) == [z]
    ensures var t := Tally(AllTags([one, two]));
      Get(t, x) == 2 && Get(t, y) == 1 && Get(t, z) == 1
  {
    AllTagsOfTwo(one, two);
    var tags := AllTags([one, two]);
    assert tags == [x, y, x] + [z];
    TallyCounts(tags);
    assert multiset(tags) == multiset{x, y, x, z};
  }

  /**
    Two notes: the second begins with `#beta`, which has no space before it,
    so only its `#gamma` is counted.
  */
  lemma ExampleTwoNotes(one: Note, two: Note)
    requires one == Note("one.md", "note #alpha #beta #alpha")
    requires two == Note("two.md", "#beta #gamma")
    ensures var t := Tally(AllTags([one, two]));
      Get(t, "alpha") == 2 && Get(t, "beta") == 1 && Get(t, "gamma") == 1
  {
    ExampleRepeatedTag();
    ExampleLeadingHash(two.content);
    CountsOfTwoNotes(one, two, "alpha", "beta", "gamma");
  }
}
