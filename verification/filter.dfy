/**
 * `filter_trojan_lines`: keep the lines of the fetched text whose stripped
 * form starts with the Trojan scheme, unchanged and in order, and join them
 * again with line breaks.
 */
module TrojanFilter {
  import opened Text

  /** The URI scheme prefix of a Trojan configuration line. */
  const Marker: string := "trojan://"

  /** A line kept by the filter. */
  predicate IsTrojanLine(line: string)
  {
    StartsWith(Strip(line), Marker)
  }

  /** No line is a Trojan line. */
  predicate NoTrojanLine(lines: seq<string>)
  {
    forall k :: 0 <= k < |lines| ==> !IsTrojanLine(lines[k])
  }

  /** The list comprehension over the split lines: the Trojan lines, in order. */
  function KeptLines(lines: seq<string>): (kept: seq<string>)
    ensures |kept| <= |lines|
    ensures forall k :: 0 <= k < |kept| ==> IsTrojanLine(kept[k])
  {
    if |lines| == 0 then []
    else (if IsTrojanLine(lines[0]) then [lines[0]] else []) + KeptLines(lines[1..])
  }

  /** The lines the filter drops, in order. */
  function DroppedLines(lines: seq<string>): (dropped: seq<string>)
    ensures forall k :: 0 <= k < |dropped| ==> !IsTrojanLine(dropped[k])
  {
    if |lines| == 0 then []
    else (if IsTrojanLine(lines[0]) then [] else [lines[0]]) + DroppedLines(lines[1..])
  }

  /** `filter_trojan_lines(content)`. */
  function FilterTrojanLines(content: string): string
  {
    Join(KeptLines(Split(content)))
  }

  /**
   * The number the filter reports as removed (it reports it only when it is
   * positive): the number of non-Trojan lines.
   */
  function DroppedLineCount(content: string): (n: nat)
    ensures n == |DroppedLines(Split(content))|
    ensures n == 0 <==> forall k :: 0 <= k < |Split(content)| ==> IsTrojanLine(Split(content)[k])
  {
    var lines := Split(content);
    KeptAndDroppedPartition(lines);
    |lines| - |KeptLines(lines)|
  }

  // ---------------------------------------------------------------------

  /** Every line is either kept or dropped. */
  lemma {:induction false} KeptAndDroppedPartition(lines: seq<string>)
    ensures |KeptLines(lines)| + |DroppedLines(lines)| == |lines|
    ensures |DroppedLines(lines)| == 0 <==> forall k :: 0 <= k < |lines| ==> IsTrojanLine(lines[k])
  {
    if |lines| > 0 {
      KeptAndDroppedPartition(lines[1..]);
      if !IsTrojanLine(lines[0]) {
        assert DroppedLines(lines)[0] == lines[0];
      }
      assert forall k :: 0 <= k < |lines| - 1 ==> lines[1..][k] == lines[k + 1];
    }
  }

  /** The filter keeps order: filtering a concatenation concatenates the results. */
  lemma {:induction false} KeptLinesAppend(a: seq<string>, b: seq<string>)
    ensures KeptLines(a + b) == KeptLines(a) + KeptLines(b)
  {
    if |a| > 0 {
      assert (a + b)[0] == a[0] && (a + b)[1..] == a[1..] + b;
      KeptLinesAppend(a[1..], b);
    } else {
      assert a + b == b;
    }
  }

  /** A line is kept iff it is one of the input lines and a Trojan line. */
  lemma {:induction false} KeptLinesMembership(lines: seq<string>, line: string)
    ensures line in KeptLines(lines) <==> line in lines && IsTrojanLine(line)
  {
    if |lines| > 0 {
      KeptLinesMembership(lines[1..], line);
      assert lines == [lines[0]] + lines[1..];
    }
  }

  /** Lines that are all Trojan lines are kept as they are. */
  lemma {:induction false} KeptLinesOfTrojanLines(lines: seq<string>)
    requires forall k :: 0 <= k < |lines| ==> IsTrojanLine(lines[k])
    ensures KeptLines(lines) == lines
  {
    if |lines| > 0 {
      KeptLinesOfTrojanLines(lines[1..]);
      assert lines == [lines[0]] + lines[1..];
    }
  }

  /** A Trojan line holds the scheme prefix, so it is never empty. */
  lemma TrojanLineHasMarker(line: string)
    requires IsTrojanLine(line)
    ensures Contains(line, Marker) && |line| >= |Marker|
  {
    StrippedPrefixContained(line, Marker);
  }

  /** The filtered text is empty exactly when no line is a Trojan line. */
  lemma FilterEmptyIff(content: string)
    ensures FilterTrojanLines(content) == "" <==> NoTrojanLine(Split(content))
  {
    var lines := Split(content);
    var kept := KeptLines(lines);
    if kept != [] {
      TrojanLineHasMarker(kept[0]);
      if |kept| > 1 {
        JoinCons(kept[0], kept[1..]);
        assert [kept[0]] + kept[1..] == kept;
      }
      assert |Join(kept)| >= |kept[0]| > 0;
      KeptLinesMembership(lines, kept[0]);
      var j :| 0 <= j < |lines| && lines[j] == kept[0];
      assert IsTrojanLine(lines[j]);
      assert FilterTrojanLines(content) == Join(kept) != "";
      assert !(forall k :: 0 <= k < |lines| ==> !IsTrojanLine(lines[k]));
    } else {
      forall k | 0 <= k < |lines|
        ensures !IsTrojanLine(lines[k])
      {
        KeptLinesMembership(lines, lines[k]);
      }
    }
  }

  /**
   * The lines of a non-empty filtered text are exactly the kept lines; the
   * first of them therefore holds the scheme prefix.
   */
  lemma FilteredLines(content: string)
    requires FilterTrojanLines(content) != ""
    ensures Split(FilterTrojanLines(content)) == KeptLines(Split(content))
    ensures Contains(Split(FilterTrojanLines(content))[0], Marker)
  {
    var lines := Split(content);
    var kept := KeptLines(lines);
    assert kept != [];
    forall k | 0 <= k < |kept|
      ensures '\n' !in kept[k]
    {
      KeptLinesMembership(lines, kept[k]);
      var j :| 0 <= j < |lines| && lines[j] == kept[k];
    }
    SplitOfJoin(kept);
    TrojanLineHasMarker(kept[0]);
  }

  /** Filtering is idempotent. */
  lemma FilterIdempotent(content: string)
    ensures FilterTrojanLines(FilterTrojanLines(content)) == FilterTrojanLines(content)
  {
    var filtered := FilterTrojanLines(content);
    if filtered == "" {
      assert Split("") == [""];
      assert !StartsWith(Strip(""), Marker);
      assert KeptLines([""]) == [];
    } else {
      FilteredLines(content);
      KeptLinesOfTrojanLines(KeptLines(Split(content)));
    }
  }

  /** The filter adds no character that was not in its input. */
  lemma FilterCharacters(content: string, c: char)
    requires c in FilterTrojanLines(content)
    ensures c in content
  {
    var lines := Split(content);
    var kept := KeptLines(lines);
    JoinCharacters(kept, c);
    forall k | 0 <= k < |kept|
      ensures '\n' !in kept[k]
    {
      KeptLinesMembership(lines, kept[k]);
      var j :| 0 <= j < |lines| && lines[j] == kept[k];
    }
    if c == '\n' {
      assert |kept| > 1;
      JoinOfSplit(content);
      assert |lines| > 1;
      JoinCharacters(lines, c);
      assert Join(lines) == lines[0] + "\n" + Join(lines[1..]);
    } else {
      var k :| 0 <= k < |kept| && c in kept[k];
      KeptLinesMembership(lines, kept[k]);
      var j :| 0 <= j < |lines| && lines[j] == kept[k];
      SplitCharacters(content, j, c);
    }
  }

  /** A mixed input: the non-Trojan line in the middle is dropped. */
  lemma FilterExample(content: string)
    requires content == Join(["trojan://A", "foo", "trojan://B"])
    ensures FilterTrojanLines(content) == Join(["trojan://A", "trojan://B"])
  {
    var lines := ["trojan://A", "foo", "trojan://B"];
    SplitOfJoin(lines);
    assert IsTrojanLine("trojan://A") by {
      assert Strip("trojan://A") == "trojan://A";
    }
    assert IsTrojanLine("trojan://B") by {
      assert Strip("trojan://B") == "trojan://B";
    }
    assert !IsTrojanLine("foo") by {
      assert Strip("foo") == "foo";
    }
    assert KeptLines(lines[2..]) == ["trojan://B"];
    assert KeptLines(lines[1..]) == ["trojan://B"];
    assert KeptLines(lines) == ["trojan://A", "trojan://B"];
  }
}
