/**
 * `has_content_changed`: the previous body of the stored file starts at its
 * first line containing the Trojan scheme; the content counts as changed
 * when there is no file, the file cannot be read, no such line exists, or
 * that body differs from the new content. The MD5 digests the script
 * compares are modelled as the texts they digest.
 */
module ChangeDetection {
  import opened Wrappers
  import opened Text
  import opened TrojanFilter
  import opened ArtifactHeader

  /** The line holds the scheme prefix somewhere (`'trojan://' in line`). */
  predicate IsMarked(line: string)
  {
    Contains(line, Marker)
  }

  /** The index of the first marked line, if there is one. */
  function FirstMarkedLine(lines: seq<string>): (r: Option<nat>)
    ensures r.Some? ==> r.value < |lines| && IsMarked(lines[r.value])
    ensures r.Some? ==> forall j :: 0 <= j < r.value ==> !IsMarked(lines[j])
    ensures r.None? ==> forall j :: 0 <= j < |lines| ==> !IsMarked(lines[j])
  {
    if |lines| == 0 then None
    else if IsMarked(lines[0]) then Some(0)
    else match FirstMarkedLine(lines[1..])
      case None => None
      case Some(k) => Some(k + 1)
  }

  /** The body of a stored text: its lines from the first marked one on. */
  function PreviousBody(text: string): Option<string>
  {
    var lines := Split(text);
    match FirstMarkedLine(lines)
    case None => None
    case Some(start) => Some(Join(lines[start..]))
  }

  /**
   * The answer of `has_content_changed(newContent)` for the file state
   * `stored` (`None` when no file exists); `readFails` says whether opening
   * or reading the existing file raises.
   */
  predicate ContentChanged(stored: Option<string>, newContent: string, readFails: bool)
  {
    match stored
    case None => true
    case Some(onDisk) =>
      readFails ||
      match PreviousBody(ReadTranslated(onDisk))
      case None => true
      case Some(body) => body != newContent
  }

  // ---------------------------------------------------------------------

  /**
   * A stored text has a previous body exactly when the scheme prefix occurs
   * in it, which is the test the script makes on the whole text.
   */
  lemma PreviousBodyFound(text: string)
    ensures PreviousBody(text).Some? <==> Contains(text, Marker)
  {
    JoinOfSplit(text);
    ContainsInJoin(Split(text), Marker);
  }

  /** The previous body is a suffix of the stored text, and a strict one unless it starts at the first line. */
  lemma PreviousBodySuffix(text: string)
    requires PreviousBody(text).Some?
    ensures |PreviousBody(text).value| <= |text|
    ensures FirstMarkedLine(Split(text)) != Some(0) ==> |PreviousBody(text).value| < |text|
    ensures FirstMarkedLine(Split(text)) == Some(0) ==> PreviousBody(text).value == text
    ensures PreviousBody(text).value == text[|text| - |PreviousBody(text).value|..]
  {
    var lines := Split(text);
    var start := FirstMarkedLine(lines).value;
    JoinOfSplit(text);
    if start > 0 {
      JoinAt(lines, start);
    }
  }

  /** Lines that are all unmarked shift the first marked line by their number. */
  lemma {:induction false} FirstMarkedAfter(prefix: seq<string>, rest: seq<string>)
    requires forall k :: 0 <= k < |prefix| ==> !IsMarked(prefix[k])
    ensures FirstMarkedLine(prefix + rest) ==
      match FirstMarkedLine(rest)
      case None => None
      case Some(k) => Some(|prefix| + k)
  {
    if |prefix| > 0 {
      assert (prefix + rest)[1..] == prefix[1..] + rest;
      FirstMarkedAfter(prefix[1..], rest);
    } else {
      assert prefix + rest == rest;
    }
  }

  /** With no file, the content always counts as changed, whatever it is. */
  lemma NoFileMeansChanged(newContent: string, readFails: bool)
    ensures ContentChanged(None, newContent, readFails)
  {
  }

  /** The header in front of the content does not change which body is found. */
  lemma HeaderIsSkipped(now: DateTime, content: string)
    requires ValidDateTime(now)
    ensures PreviousBody(ReadTranslated(Header(now) + content)) == PreviousBody(ReadTranslated(content))
  {
    HeaderReadsAsLines(now, content);
    HeaderLinesUnmarked(now);
    BodyPastUnmarked(HeaderLines(now), Split(ReadTranslated(content)));
  }

  /** Unmarked lines in front do not change the lines from the first marked one on. */
  lemma BodyPastUnmarked(prefix: seq<string>, lines: seq<string>)
    requires forall k :: 0 <= k < |prefix| ==> !IsMarked(prefix[k])
    ensures FirstMarkedLine(prefix + lines).Some? <==> FirstMarkedLine(lines).Some?
    ensures FirstMarkedLine(lines).Some? ==>
      (prefix + lines)[FirstMarkedLine(prefix + lines).value..] == lines[FirstMarkedLine(lines).value..]
  {
    FirstMarkedAfter(prefix, lines);
    if FirstMarkedLine(lines).Some? {
      var start := FirstMarkedLine(lines).value;
      assert (prefix + lines)[|prefix| + start..] == lines[start..];
    }
  }

  /** The header reads back unchanged, as its own lines in front of the content's. */
  lemma HeaderReadsAsLines(now: DateTime, content: string)
    requires ValidDateTime(now)
    ensures Split(ReadTranslated(Header(now) + content)) == HeaderLines(now) + Split(ReadTranslated(content))
  {
    HeaderLinesPlain(now);
    ReadAfterPlainPrefix(Header(now), content);
    HeaderThenContent(now, ReadTranslated(content));
  }

  /**
   * The body found in what a text reads back as is the text itself exactly
   * when the text has no carriage return and its first line is marked.
   */
  lemma BodyIsWholeText(content: string)
    ensures PreviousBody(ReadTranslated(content)) == Some(content) <==>
      '\r' !in content && IsMarked(Split(content)[0])
  {
    var readBack := ReadTranslated(content);
    ReadsBackIff(content);
    if PreviousBody(readBack).Some? {
      PreviousBodySuffix(readBack);
    }
  }

  /**
   * A stored body is compared as the read translates it: against its own
   * translated text, the saved file counts as unchanged exactly when that
   * text's first line holds the scheme prefix.
   */
  lemma StoredComparedAsRead(now: DateTime, content: string)
    requires ValidDateTime(now)
    ensures !ContentChanged(Some(Header(now) + content), ReadTranslated(content), false) <==>
      IsMarked(Split(ReadTranslated(content))[0])
  {
    HeaderIsSkipped(now, content);
    ReadTwice(content);
    BodyIsWholeText(ReadTranslated(content));
  }

  /** A file saved with "\r\n" line ends counts as unchanged against the same list with "\n". */
  lemma CrLfFileMatchesLfList(now: DateTime, onDisk: string, served: string)
    requires ValidDateTime(now)
    requires onDisk == "trojan://a" + "\r\n" + "trojan://b"
    requires served == "trojan://a" + "\n" + "trojan://b"
    ensures !ContentChanged(Some(Header(now) + onDisk), served, false)
  {
    ReadCarriageReturnLineFeed("trojan://a", "trojan://b");
    ReadWithoutCarriageReturn("trojan://b");
    assert ReadTranslated(onDisk) == served;
    SplitWithoutBreak("trojan://b");
    SplitAtFirstBreak("trojan://a", "trojan://b");
    assert OccursAt("trojan://a", Marker, 0);
    StoredComparedAsRead(now, onDisk);
  }

  /**
   * Save, then check: right after `save_trojan_file(c)` succeeds, and when
   * the file reads back without error, `has_content_changed(c)` answers
   * "unchanged" exactly when `c` has no carriage return and its first line
   * holds the scheme prefix.
   */
  lemma SaveThenCheck(now: DateTime, content: string)
    requires ValidDateTime(now)
    ensures !ContentChanged(Some(Header(now) + content), content, false) <==>
      '\r' !in content && IsMarked(Split(content)[0])
  {
    HeaderIsSkipped(now, content);
    BodyIsWholeText(content);
  }

  /**
   * The other half of the round trip: right after `save_trojan_file(c)`,
   * for a `c` that reads back as itself, any different content counts as
   * changed.
   */
  lemma SaveThenCheckDifferent(now: DateTime, content: string, other: string)
    requires ValidDateTime(now)
    requires '\r' !in content && IsMarked(Split(content)[0])
    requires other != content
    ensures ContentChanged(Some(Header(now) + content), other, false)
  {
    HeaderIsSkipped(now, content);
    BodyIsWholeText(content);
  }

  /**
   * The round trip for what the filter produces: after saving a non-empty
   * filtered text, checking the same text answers "unchanged" exactly when
   * it has no carriage return.
   */
  lemma SaveThenCheckFiltered(now: DateTime, fetched: string)
    requires ValidDateTime(now)
    requires FilterTrojanLines(fetched) != ""
    ensures var filtered := FilterTrojanLines(fetched);
      !ContentChanged(Some(Header(now) + filtered), filtered, false) <==> '\r' !in filtered
  {
    FilteredLines(fetched);
    SaveThenCheck(now, FilterTrojanLines(fetched));
  }

  /**
   * Fetched lines that end in "\r\n" keep their "\r" through the filter, so
   * the saved text reads back different and is reported as changed.
   */
  lemma CarriageReturnReadsAsChanged(now: DateTime, fetched: string)
    requires ValidDateTime(now)
    requires fetched == Join(["trojan://a\r", "trojan://b"])
    ensures FilterTrojanLines(fetched) == fetched
    ensures ContentChanged(Some(Header(now) + fetched), fetched, false)
  {
    var lines := ["trojan://a\r", "trojan://b"];
    SplitOfJoin(lines);
    assert IsTrojanLine(lines[0]) by {
      assert TrimLeft(lines[0]) == lines[0];
      assert TrimRight(lines[0]) == "trojan://a";
    }
    assert IsTrojanLine(lines[1]) by {
      assert Strip(lines[1]) == lines[1];
    }
    KeptLinesOfTrojanLines(lines);
    assert fetched[10] == '\r';
    SaveThenCheck(now, fetched);
  }
}
