/**
  Tag extraction: a `scan` of the note's text for the regular expression
  "space, `#`, one or more non-whitespace characters", each match stripped of
  its first two characters.

  The scan finds the leftmost match, reports it, and resumes the search where
  that match ended (non-overlapping). A match is a literal space (0x20 only),
  a `#`, and the greedy run of one or more non-whitespace characters that
  follows. Dropping the first two characters of each match leaves the tag.
*/
module Extraction {

  /** Ruby's `\s`: space, tab, line feed, carriage return, form feed, vertical tab. */
  predicate IsSpace(c: char) {
    c == ' ' || c == '\t' || c == '\n' || c == '\r' || c == 12 as char || c == 11 as char
  }

  /** What `[^\s]+` accepts: a non-empty run without whitespace. */
  predicate IsTag(t: string) {
    |t| > 0 && forall k :: 0 <= k < |t| ==> !IsSpace(t[k])
  }

  /** The pattern ` #[^\s]+` can match starting at index i. */
  predicate MatchAt(s: string, i: nat) {
    i + 2 < |s| && s[i] == ' ' && s[i + 1] == '#' && !IsSpace(s[i + 2])
  }

  /** The index where the greedy run `[^\s]+` begun at j stops. */
  function RunEnd(s: string, j: nat): (e: nat)
    requires j <= |s|
    ensures j <= e <= |s|
    ensures forall k :: j <= k < e ==> !IsSpace(s[k])
    ensures e == |s| || IsSpace(s[e])
    decreases |s| - j
  {
    if j == |s| || IsSpace(s[j]) then j else RunEnd(s, j + 1)
  }

  /** The tag of the match that starts at i. */
  function TagAt(s: string, i: nat): (t: string)
    requires MatchAt(s, i)
    ensures IsTag(t)
  {
    s[i..RunEnd(s, i + 2)][2..]
  }

  /**
    The tags `scan` finds when searching from index i onwards: try a match at
    i; on success report it and continue at its end, otherwise move one
    character on.
  */
  function ScanFrom(s: string, i: nat): (tags: seq<string>)
    requires i <= |s|
    ensures forall k :: 0 <= k < |tags| ==> IsTag(tags[k])
    decreases |s| - i
  {
    if i == |s| then []
    else if MatchAt(s, i) then [TagAt(s, i)] + ScanFrom(s, RunEnd(s, i + 2))
    else ScanFrom(s, i + 1)
  }

  /** The tags of one note, in text order. */
  function Extract(s: string): (tags: seq<string>)
    ensures forall k :: 0 <= k < |tags| ==> IsTag(tags[k])
  {
    ScanFrom(s, 0)
  }

  /**
    Reference definition: one tag for every index at which the pattern can
    match, in index order, with no regard for where earlier matches ended.
  */
  function TagsFrom(s: string, i: nat): (tags: seq<string>)
    requires i <= |s|
    decreases |s| - i
  {
    if i == |s| then []
    else (if MatchAt(s, i) then [TagAt(s, i)] else []) + TagsFrom(s, i + 1)
  }

  /** No index inside a match (after its leading space) can begin another match. */
  lemma NoMatchInsideRun(s: string, i: nat)
    requires MatchAt(s, i)
    ensures TagsFrom(s, i + 1) == TagsFrom(s, RunEnd(s, i + 2))
  {
    var e := RunEnd(s, i + 2);
    forall p | i + 1 <= p < e
      ensures !MatchAt(s, p)
    {
      assert s[p] != ' ' by {
        if p == i + 1 {
          assert s[p] == '#';
        } else {
          assert !IsSpace(s[p]);
        }
      }
    }
    SkipNoMatch(s, i + 1, e);
  }

  /** Resuming each search at the end of the previous match skips no match. */
  lemma {:induction false} ScanFromIsTagsFrom(s: string, i: nat)
    requires i <= |s|
    ensures ScanFrom(s, i) == TagsFrom(s, i)
    decreases |s| - i
  {
    if i < |s| {
      if MatchAt(s, i) {
        var e := RunEnd(s, i + 2);
        ScanFromIsTagsFrom(s, e);
        NoMatchInsideRun(s, i);
      } else {
        ScanFromIsTagsFrom(s, i + 1);
      }
    }
  }

  /** The scan agrees with the reference definition. */
  lemma ExtractIsReference(s: string)
    ensures Extract(s) == TagsFrom(s, 0)
  {
    ScanFromIsTagsFrom(s, 0);
  }

  lemma {:induction false} TagsFromMembership(s: string, i: nat, t: string)
    requires i <= |s|
    ensures t in TagsFrom(s, i) <==> exists p :: i <= p < |s| && MatchAt(s, p) && TagAt(s, p) == t
    decreases |s| - i
  {
    if i < |s| {
      TagsFromMembership(s, i + 1, t);
      if MatchAt(s, i) && TagAt(s, i) == t {
        assert t in TagsFrom(s, i);
      }
    }
  }

  /**
    At index p the text holds a space and `#`, then t, then whitespace or the
    end of the text, and t is a non-empty run without whitespace.
  */
  predicate TagOccursAt(s: string, p: nat, t: string) {
    && p + 2 + |t| <= |s|
    && s[p] == ' ' && s[p + 1] == '#'
    && s[p + 2..p + 2 + |t|] == t
    && IsTag(t)
    && (p + 2 + |t| == |s| || IsSpace(s[p + 2 + |t|]))
  }

  /** A run without whitespace that is followed by whitespace or the end is the greedy run. */
  lemma {:induction false} RunEndOfTag(s: string, j: nat, e: nat)
    requires j <= e <= |s|
    requires forall k :: j <= k < e ==> !IsSpace(s[k])
    requires e == |s| || IsSpace(s[e])
    ensures RunEnd(s, j) == e
    decreases e - j
  {
    if j < e {
      RunEndOfTag(s, j + 1, e);
    }
  }

  lemma TagOccursAtIsMatch(s: string, p: nat, t: string)
    ensures TagOccursAt(s, p, t) <==> MatchAt(s, p) && TagAt(s, p) == t
  {
    if TagOccursAt(s, p, t) {
      assert t[0] == s[p + 2];
      forall k | p + 2 <= k < p + 2 + |t|
        ensures !IsSpace(s[k])
      {
        assert s[k] == t[k - (p + 2)];
      }
      RunEndOfTag(s, p + 2, p + 2 + |t|);
    }
    if MatchAt(s, p) && TagAt(s, p) == t {
      assert RunEnd(s, p + 2) == p + 2 + |t|;
    }
  }

  /**
    A string is an extracted tag exactly when, at some index of the text, a
    space and `#` are followed by it and then by whitespace or the end.
  */
  lemma TagOccurrence(s: string, t: string)
    ensures t in Extract(s) <==> exists p :: TagOccursAt(s, p, t)
  {
    ExtractIsReference(s);
    TagsFromMembership(s, 0, t);
    if t in Extract(s) {
      var p :| 0 <= p < |s| && MatchAt(s, p) && TagAt(s, p) == t;
      TagOccursAtIsMatch(s, p, t);
    }
    if exists p :: TagOccursAt(s, p, t) {
      var p :| TagOccursAt(s, p, t);
      TagOccursAtIsMatch(s, p, t);
    }
  }

  /** Indices at which no match can begin contribute no tags. */
  lemma {:induction false} SkipNoMatch(s: string, i: nat, j: nat)
    requires i <= j <= |s|
    requires forall p :: i <= p < j ==> !MatchAt(s, p)
    ensures TagsFrom(s, i) == TagsFrom(s, j)
    decreases j - i
  {
    if i < j {
      SkipNoMatch(s, i + 1, j);
    }
  }

  /** Without a space immediately before a `#` anywhere, the text has no tags. */
  lemma NoTagWithoutSpaceHash(s: string)
    requires forall p :: 0 <= p < |s| - 1 ==> !(s[p] == ' ' && s[p + 1] == '#')
    ensures Extract(s) == []
  {
    ExtractIsReference(s);
    SkipNoMatch(s, 0, |s|);
  }

  // Worked examples of the scan's edge cases.

  /** A match contributes its tag, and the search resumes at the end of its run. */
  lemma TagsFromMatch(s: string, i: nat)
    requires MatchAt(s, i)
    ensures TagsFrom(s, i) == [TagAt(s, i)] + TagsFrom(s, RunEnd(s, i + 2))
  {
    NoMatchInsideRun(s, i);
  }

  lemma ExampleSimple(s: string)
    requires s == "hello #world today"
    ensures Extract(s) == ["world"]
  {
    assert |s| == 18;
    assert s[0] == 'h' && s[1] == 'e' && s[2] == 'l' && s[3] == 'l' && s[4] == 'o';
    assert s[5] == ' ' && s[6] == '#' && s[12] == ' ' && s[13] == 't';
    assert s[7..12] == "world";
    assert forall p :: 13 <= p < 18 ==> s[p] != ' ';
    ExtractIsReference(s);
    SkipNoMatch(s, 0, 5);
    RunEndOfTag(s, 7, 12);
    TagsFromMatch(s, 5);
    SkipNoMatch(s, 12, 18);
  }

  lemma ExampleTextStart()
    ensures Extract("#start no-space") == []
  {
    NoTagWithoutSpaceHash("#start no-space");
  }

  lemma ExampleAfterNewlineOrTab()
    ensures Extract("a\n#x") == [] && Extract("a\t#x") == []
  {
    NoTagWithoutSpaceHash("a\n#x");
    NoTagWithoutSpaceHash("a\t#x");
  }

  lemma ExamplePunctuation(s: string)
    requires s == "see #tag, now"
    ensures Extract(s) == ["tag,"]
  {
    assert |s| == 13;
    assert s[0] == 's' && s[1] == 'e' && s[2] == 'e';
    assert s[3] == ' ' && s[4] == '#' && s[9] == ' ' && s[10] == 'n';
    assert s[5..9] == "tag,";
    assert forall p :: 10 <= p < 13 ==> s[p] != ' ';
    ExtractIsReference(s);
    SkipNoMatch(s, 0, 3);
    RunEndOfTag(s, 5, 9);
    TagsFromMatch(s, 3);
    SkipNoMatch(s, 9, 13);
  }

  lemma {:induction false} RunEndShift(a: string, b: string, j: nat)
    requires j <= |b|
    ensures RunEnd(a + b, |a| + j) == |a| + RunEnd(b, j)
    decreases |b| - j
  {
    if j < |b| {
      assert (a + b)[|a| + j] == b[j];
      RunEndShift(a, b, j + 1);
    }
  }

  lemma {:induction false} RunEndBeforeSpace(a: string, b: string, j: nat)
    requires j <= |a| && (b == [] || b[0] == ' ')
    ensures RunEnd(a + b, j) == RunEnd(a, j)
    decreases |a| - j
  {
    if j < |a| {
      assert (a + b)[j] == a[j];
      RunEndBeforeSpace(a, b, j + 1);
    } else if b != [] {
      assert (a + b)[j] == b[0];
    }
  }

  lemma TagAtShift(a: string, b: string, q: nat)
    requires q <= |b|
    ensures MatchAt(a + b, |a| + q) <==> MatchAt(b, q)
    ensures MatchAt(b, q) ==> TagAt(a + b, |a| + q) == TagAt(b, q)
  {
    var s := a + b;
    if q + 2 < |b| {
      assert s[|a| + q] == b[q] && s[|a| + q + 1] == b[q + 1] && s[|a| + q + 2] == b[q + 2];
    }
    if MatchAt(b, q) {
      RunEndShift(a, b, q + 2);
      assert s[|a| + q..|a| + RunEnd(b, q + 2)] == b[q..RunEnd(b, q + 2)];
    }
  }

  /** The matches of the second part of a text, seen from inside the whole text. */
  lemma {:induction false} TagsFromShift(a: string, b: string, q: nat)
    requires q <= |b|
    ensures TagsFrom(a + b, |a| + q) == TagsFrom(b, q)
    decreases |b| - q
  {
    if q < |b| {
      var s := a + b;
      assert |s| == |a| + |b|;
      TagsFromShift(a, b, q + 1);
      TagAtShift(a, b, q);
      assert TagsFrom(s, |a| + q)
          == (if MatchAt(s, |a| + q) then [TagAt(s, |a| + q)] else []) + TagsFrom(s, |a| + (q + 1));
    }
  }

  lemma TagAtBeforeSpace(a: string, b: string, i: nat)
    requires i < |a| && (b == [] || b[0] == ' ')
    ensures MatchAt(a + b, i) <==> MatchAt(a, i)
    ensures MatchAt(a, i) ==> TagAt(a + b, i) == TagAt(a, i)
  {
    var s := a + b;
    if i + 2 < |a| {
      assert s[i] == a[i] && s[i + 1] == a[i + 1] && s[i + 2] == a[i + 2];
    } else if i + 2 < |s| {
      assert s[|a|] == b[0];
    }
    if MatchAt(a, i) {
      RunEndBeforeSpace(a, b, i + 2);
      assert s[i..RunEnd(a, i + 2)] == a[i..RunEnd(a, i + 2)];
    }
  }

  /** The matches of the first part of a text, when the rest begins with a space. */
  lemma {:induction false} TagsFromBeforeSpace(a: string, b: string, i: nat)
    requires i <= |a| && (b == [] || b[0] == ' ')
    ensures TagsFrom(a + b, i) == TagsFrom(a, i) + TagsFrom(a + b, |a|)
    decreases |a| - i
  {
    if i < |a| {
      TagsFromBeforeSpace(a, b, i + 1);
      TagAtBeforeSpace(a, b, i);
    }
  }

  /**
    When the second part of a text begins with a space, the text's tags are
    those of the first part followed by those of the second.
  */
  lemma ExtractAppend(a: string, b: string)
    requires b == [] || b[0] == ' '
    ensures Extract(a + b) == Extract(a) + Extract(b)
  {
    ExtractIsReference(a + b);
    ExtractIsReference(a);
    ExtractIsReference(b);
    TagsFromBeforeSpace(a, b, 0);
    TagsFromShift(a, b, 0);
  }

  /** A space, `#` and a tag, and nothing else, is that one tag. */
  lemma SingleTag(t: string)
    requires IsTag(t)
    ensures Extract(" #" + t) == [t]
  {
    var s := " #" + t;
    assert s[2..2 + |t|] == t;
    TagOccursAtIsMatch(s, 0, t);
    ExtractIsReference(s);
    TagsFromMatch(s, 0);
  }

  /** A word without spaces followed by three tags, each after a space and `#`. */
  lemma WordThenThreeTags(w: string, t1: string, t2: string, t3: string)
    requires forall k :: 0 <= k < |w| ==> w[k] != ' '
    requires IsTag(t1) && IsTag(t2) && IsTag(t3)
    ensures Extract(w + " #" + t1 + " #" + t2 + " #" + t3) == [t1, t2, t3]
  {
    var p1, p2, p3 := " #" + t1, " #" + t2, " #" + t3;
    NoTagWithoutSpaceHash(w);
    SingleTag(t1);
    SingleTag(t2);
    SingleTag(t3);
    ExtractAppend(w, p1);
    ExtractAppend(w + p1, p2);
    ExtractAppend(w + p1 + p2, p3);
    assert w + " #" + t1 + " #" + t2 + " #" + t3 == w + p1 + p2 + p3;
  }

  lemma ExampleRepeatedTag()
    ensures Extract("note #alpha #beta #alpha") == ["alpha", "beta", "alpha"]
  {
    assert "note #alpha #beta #alpha" == "note" + " #" + "alpha" + " #" + "beta" + " #" + "alpha";
    WordThenThreeTags("note", "alpha", "beta", "alpha");
  }

  /** Four pieces, the last three each beginning with a space, are scanned piece by piece. */
  lemma ExtractFourPieces(a: string, b: string, c: string, d: string)
    requires b != [] && b[0] == ' ' && c != [] && c[0] == ' ' && d != [] && d[0] == ' '
    ensures Extract(a + b + c + d) == Extract(a) + Extract(b) + Extract(c) + Extract(d)
  {
    ExtractAppend(a, b);
    ExtractAppend(a + b, c);
    ExtractAppend(a + b + c, d);
  }

  lemma ExampleTwoTags()
    ensures Extract("a #x #y b") == ["x", "y"]
  {
    NoTagWithoutSpaceHash("a");
    NoTagWithoutSpaceHash(" b");
    SingleTag("x");
    SingleTag("y");
    assert " #" + "x" == " #x" && " #" + "y" == " #y";
    assert "a #x #y b" == "a" + " #x" + " #y" + " b";
    ExtractFourPieces("a", " #x", " #y", " b");
    var nothing: seq<string> := [];
    assert nothing + ["x"] + ["y"] + nothing == ["x", "y"];
  }

  lemma ExampleLeadingHash(s: string)
    requires s == "#beta #gamma"
    ensures Extract(s) == ["gamma"]
  {
    assert |s| == 12;
    assert s[0] == '#' && s[1] == 'b' && s[2] == 'e' && s[3] == 't' && s[4] == 'a';
    assert s[5] == ' ' && s[6] == '#' && s[7..12] == "gamma";
    ExtractIsReference(s);
    SkipNoMatch(s, 0, 5);
    RunEndOfTag(s, 7, 12);
    TagsFromMatch(s, 5);
  }
}
