# Trojan subscription updater, modelled in Dafny

`scripts/fetch_subscriptions.py` downloads a list of Trojan proxy
configurations (lines starting with `trojan://`) from one fixed URL. It
keeps only the Trojan lines and compares them with the body of the file it
saved last time. When they differ, it rewrites
`subscriptions/trojan_subscriptions.txt` with a six-line header (title, a
rule of fifty `=`, the update time, the source URL, another rule, an empty
line) followed by the lines. `main` returns whether the run succeeded, and
the process exits with 0 or 1 accordingly.

The model has one module per part of the script:

- `Text` covers the Python string operations the script relies on:
  - `str.split('\n')` and `'\n'.join`;
  - `in` as a substring test and `startswith`;
  - `str.strip()` with the whitespace set of `str.isspace()`;
  - a text-mode read, which uses universal newlines, so `"\r\n"` and a lone `"\r"` both read as `"\n"`.
- `TrojanFilter` models `filter_trojan_lines` and the number of lines it reports as dropped.
- `ArtifactHeader` models the header `save_trojan_file` writes. This includes the timestamp `strftime('%Y-%m-%d %H:%M:%S')` and the constant URL.
- `ChangeDetection` models `has_content_changed` as pure functions: the first line containing `trojan://` starts the previous body, and the body is compared with the new content. It also holds the save-then-check round trip.
- `Updater` holds:
  - `fetch_trojan_data`, as a function of the HTTP response;
  - the output file, as a class `SubscriptionFile` whose one field `stored` is the file's text, or `None` while the file does not exist;
  - the script's three stateful functions, as methods on that class: `HasContentChanged` (the boundary loop), `Save` (the `+=` header and the overwrite) and `Run` (`main`);
  - the exit status.

The MD5 comparison at lines 86-89 is modelled as equality of the digested
texts.

Two consequences of the code are worth knowing:

- **Save then check.** Checking a body right after saving it answers "unchanged" only when the body has no carriage return and its first line contains `trojan://`. The file is read back with universal newlines, so a `"\r"` kept in the body does not survive the round trip. `ChangeDetection.SaveThenCheck` states this as an if-and-only-if. `Updater.CarriageReturnRewritesEveryRun` shows the effect: a subscription list served with `"\r\n"` line ends is rewritten on every run. `ChangeDetection.CrLfFileMatchesLfList` shows the other side: a file holding `"\r\n"` line ends counts as unchanged against the same list with `"\n"`.
- **One source.** The script has one fixed source URL, and the boolean `main` returns is the whole outcome of a run.

## Model

| member | source | states |
|---|---|---|
| Text.Split | scripts/fetch_subscriptions.py:71 | `str.split('\n')` always yields at least one piece, and no piece holds a line break |
| Text.JoinOfSplit | scripts/fetch_subscriptions.py:71 | joining the pieces of a split with `'\n'` gives back the original text |
| Text.SplitOfJoin | scripts/fetch_subscriptions.py:101-107 | splitting the join of at least one break-free line gives back those lines |
| Text.SplitWithoutBreak | scripts/fetch_subscriptions.py:71 | a text without a line break splits into itself alone |
| Text.SplitAtFirstBreak | scripts/fetch_subscriptions.py:71 | a break-free line followed by a break splits into that line, then the pieces of the rest |
| Text.SplitJoinThen | scripts/fetch_subscriptions.py:71 | joined break-free lines, a break and a rest split into those lines followed by the pieces of the rest |
| Text.JoinAt | scripts/fetch_subscriptions.py:85 | joining lines is joining the lines before index k, a break, and joining the lines from k on |
| Text.SplitCharacters | scripts/fetch_subscriptions.py:101 | every character of a split piece occurs in the text |
| Text.JoinCharacters | scripts/fetch_subscriptions.py:107 | a character of a join is a line break or occurs in one of the joined lines |
| Text.Join | scripts/fetch_subscriptions.py:107 | `'\n'.join`: characterised by JoinOfSplit, SplitOfJoin, JoinAt and JoinCharacters |
| Text.ContainsAcrossBreak | scripts/fetch_subscriptions.py:76-81 | a break-free pattern occurs in `a + "\n" + b` iff it occurs in `a` or in `b` |
| Text.ContainsInJoin | scripts/fetch_subscriptions.py:76-81 | a break-free pattern occurs in the joined lines iff it occurs in one of them, so testing the whole text agrees with testing every line |
| Text.TrimLeftShape | scripts/fetch_subscriptions.py:102 | left-stripping removes exactly a prefix of whitespace and leaves a text that is empty or starts with a non-space |
| Text.TrimRightShape | scripts/fetch_subscriptions.py:102 | right-stripping removes exactly a suffix of whitespace and leaves a text that is empty or ends with a non-space |
| Text.StripShape | scripts/fetch_subscriptions.py:18 | `strip()` yields a contiguous slice of the text with only whitespace around it, and the slice is empty or has non-space ends |
| Text.StripEmptyIff | scripts/fetch_subscriptions.py:18-19 | the stripped text is empty iff every character is whitespace |
| Text.StripEdges | scripts/fetch_subscriptions.py:18 | a non-empty stripped text starts and ends with a non-space character |
| Text.StripCharacters | scripts/fetch_subscriptions.py:18 | stripping adds no character |
| Text.StrippedPrefixContained | scripts/fetch_subscriptions.py:102 | a line whose stripped form starts with a pattern contains that pattern |
| Text.TrimLeft | scripts/fetch_subscriptions.py:102 | `lstrip()`: characterised by TrimLeftShape |
| Text.TrimRight | scripts/fetch_subscriptions.py:102 | `rstrip()`: characterised by TrimRightShape |
| Text.Strip | scripts/fetch_subscriptions.py:18 | `strip()`: characterised by StripShape, StripEmptyIff and StripEdges |
| Text.ReadTranslated | scripts/fetch_subscriptions.py:67-68 | a universal-newline read never yields a carriage return and never lengthens the text; with ReadCarriageReturnLineFeed, ReadLoneCarriageReturn and ReadAfterPlainPrefix it is fully determined |
| Text.ReadWithoutCarriageReturn | scripts/fetch_subscriptions.py:67-68 | a text without carriage returns reads back unchanged |
| Text.ReadAfterPlainPrefix | scripts/fetch_subscriptions.py:67-68 | a prefix without carriage returns reads back unchanged in front of the rest's translation |
| Text.ReadsBackIff | scripts/fetch_subscriptions.py:67-68 | a text reads back as itself iff it has no carriage return |
| Text.ReadCarriageReturnLineFeed | scripts/fetch_subscriptions.py:67-68 | after a prefix without carriage returns, `"\r\n"` reads as one `"\n"` and the rest is translated in turn |
| Text.ReadLoneCarriageReturn | scripts/fetch_subscriptions.py:67-68 | after a prefix without carriage returns, a `"\r"` not followed by `"\n"` reads as `"\n"` and the rest is translated in turn |
| Text.ReadTwice | scripts/fetch_subscriptions.py:67-68 | reading what has been read back changes nothing |
| TrojanFilter.KeptLines | scripts/fetch_subscriptions.py:102 | the comprehension keeps no more lines than it is given, and each kept line's stripped form starts with `trojan://` |
| TrojanFilter.DroppedLines | scripts/fetch_subscriptions.py:102-105 | each dropped line fails the `trojan://` test |
| TrojanFilter.KeptLinesMembership | scripts/fetch_subscriptions.py:102 | a line is in the output iff it is an input line, unmodified, whose stripped form starts with `trojan://`, so leading whitespace is kept |
| TrojanFilter.KeptLinesAppend | scripts/fetch_subscriptions.py:102 | filtering keeps order: the filter of a concatenation is the concatenation of the filters |
| TrojanFilter.KeptLinesOfTrojanLines | scripts/fetch_subscriptions.py:102 | lines that all pass the test are kept as they are |
| TrojanFilter.KeptAndDroppedPartition | scripts/fetch_subscriptions.py:101-105 | every line is kept or dropped, and none is dropped iff every line passes the test |
| TrojanFilter.FilterTrojanLines | scripts/fetch_subscriptions.py:99-107 | `filter_trojan_lines`: characterised by KeptLinesMembership, KeptLinesAppend, FilterEmptyIff, FilteredLines and FilterIdempotent |
| TrojanFilter.DroppedLineCount | scripts/fetch_subscriptions.py:104-105 | the reported count `len(lines) - len(trojan_lines)` is the number of dropped lines, and it is zero iff every line passes |
| TrojanFilter.TrojanLineHasMarker | scripts/fetch_subscriptions.py:102 | a kept line contains `trojan://`, so it is what `has_content_changed` looks for |
| TrojanFilter.FilterEmptyIff | scripts/fetch_subscriptions.py:99-107 | the filter returns `""` iff no line passes the test, the case in which `main` gives up at lines 123-125 |
| TrojanFilter.FilteredLines | scripts/fetch_subscriptions.py:99-107 | a non-empty filtered text splits back into exactly the kept lines, and its first line contains `trojan://` |
| TrojanFilter.FilterIdempotent | scripts/fetch_subscriptions.py:99-107 | filtering the filter's output returns it unchanged |
| TrojanFilter.FilterCharacters | scripts/fetch_subscriptions.py:99-107 | the filter adds no character that was not in its input |
| TrojanFilter.FilterExample | scripts/fetch_subscriptions.py:101-107 | a non-Trojan line between two Trojan lines is dropped |
| ArtifactHeader.Decimal | scripts/fetch_subscriptions.py:44 | the `%Y` numeral is non-empty, all digits, has no leading zero and denotes the year |
| ArtifactHeader.TwoDigits | scripts/fetch_subscriptions.py:44 | `%m %d %H %M %S` are exactly two digits and denote the field's value |
| ArtifactHeader.Timestamp | scripts/fetch_subscriptions.py:44 | the formatted time has at least 15 characters, all digits, `-`, `:` or space |
| ArtifactHeader.TimestampFields | scripts/fetch_subscriptions.py:44 | the formatted time is the year's numeral followed by `-MM-DD HH:MM:SS`: each two-digit field and each separator `-`, `-`, space, `:`, `:` sits at a fixed place in the last fifteen characters |
| ArtifactHeader.TimestampInjective | scripts/fetch_subscriptions.py:44 | two valid times that format the same are the same time |
| ArtifactHeader.Repeat | scripts/fetch_subscriptions.py:43-46 | `"=" * n` is n copies of `=` |
| ArtifactHeader.HeaderLines | scripts/fetch_subscriptions.py:42-46 | the six header lines: characterised by HeaderAsLines, HeaderLinesPlain and HeaderLinesUnmarked |
| ArtifactHeader.Header | scripts/fetch_subscriptions.py:42-46 | the header built by `+=`: characterised by HeaderAsLines and HeaderThenContent |
| ArtifactHeader.HeaderAsLines | scripts/fetch_subscriptions.py:42-46 | the header built by `+=` is its six lines (title, rule, time, source, rule, empty) joined, with a final break |
| ArtifactHeader.HeaderLinesPlain | scripts/fetch_subscriptions.py:42-46 | no header line holds a line break, and the header holds no carriage return |
| ArtifactHeader.HeaderThenContent | scripts/fetch_subscriptions.py:42-50 | the saved text splits into the six header lines followed by the content's own lines |
| ArtifactHeader.HeaderLinesUnmarked | scripts/fetch_subscriptions.py:42-46 | no header line contains `trojan://`: the URL of line 7 has `kind=trojan` with no `://` after it |
| ArtifactHeader.LabelsPlain | scripts/fetch_subscriptions.py:42-45 | the title, the rule and both labels hold no line break, no carriage return and no `j` |
| ArtifactHeader.TitlePlain | scripts/fetch_subscriptions.py:42 | the title holds no line break, no carriage return and no `j` |
| ArtifactHeader.TimestampPlain | scripts/fetch_subscriptions.py:44 | the formatted time holds no line break, no carriage return and no `j` |
| ArtifactHeader.UrlPlain | scripts/fetch_subscriptions.py:7 | the URL holds no line break and no carriage return, and its only `j` is in its final `jan` |
| ChangeDetection.FirstMarkedLine | scripts/fetch_subscriptions.py:74-78 | the boundary is the index of a line containing `trojan://` with none before it, or there is none when no line contains it |
| ChangeDetection.FirstMarkedAfter | scripts/fetch_subscriptions.py:74-78 | lines without `trojan://` in front shift the boundary by their number |
| ChangeDetection.BodyPastUnmarked | scripts/fetch_subscriptions.py:74-85 | lines without `trojan://` in front do not change whether a boundary is found, nor the lines from it on |
| ChangeDetection.PreviousBody | scripts/fetch_subscriptions.py:71-85 | `'\n'.join(lines[content_start:])`: characterised by PreviousBodyFound, PreviousBodySuffix and HeaderIsSkipped |
| ChangeDetection.ContentChanged | scripts/fetch_subscriptions.py:59-97 | the answer of `has_content_changed`: characterised by NoFileMeansChanged, PreviousBodyFound and SaveThenCheck, and computed by SubscriptionFile.HasContentChanged |
| ChangeDetection.PreviousBodyFound | scripts/fetch_subscriptions.py:74-82 | a previous body exists iff the stored text contains `trojan://`, the test of line 81 |
| ChangeDetection.PreviousBodySuffix | scripts/fetch_subscriptions.py:85 | the previous body is a suffix of the stored text, a strict one unless the boundary is the first line, when it is the whole text |
| ChangeDetection.NoFileMeansChanged | scripts/fetch_subscriptions.py:63-64 | with no file, the content counts as changed |
| ChangeDetection.HeaderReadsAsLines | scripts/fetch_subscriptions.py:42-71 | the saved text reads back and splits into the header lines followed by the lines of the content as read |
| ChangeDetection.HeaderIsSkipped | scripts/fetch_subscriptions.py:67-85 | the header in front of the content does not change which previous body is found |
| ChangeDetection.BodyIsWholeText | scripts/fetch_subscriptions.py:67-85 | the body found in a text as read back is the text itself iff it has no carriage return and its first line contains `trojan://` |
| ChangeDetection.StoredComparedAsRead | scripts/fetch_subscriptions.py:67-89 | the saved file counts as unchanged against its own translated body iff that body's first line contains `trojan://` |
| ChangeDetection.CrLfFileMatchesLfList | scripts/fetch_subscriptions.py:67-89 | a file holding a list with `"\r\n"` line ends counts as unchanged against the same list with `"\n"` |
| ChangeDetection.SaveThenCheck | scripts/fetch_subscriptions.py:42-89 | right after saving `c`, `has_content_changed(c)` answers "unchanged" iff `c` has no carriage return and its first line contains `trojan://` |
| ChangeDetection.SaveThenCheckDifferent | scripts/fetch_subscriptions.py:42-89 | right after saving `c` (without carriage return, first line containing `trojan://`), every content different from `c` counts as changed |
| ChangeDetection.SaveThenCheckFiltered | scripts/fetch_subscriptions.py:42-107 | for non-empty filter output, saving then checking answers "unchanged" iff it has no carriage return |
| ChangeDetection.CarriageReturnReadsAsChanged | scripts/fetch_subscriptions.py:59-107 | on the example `"trojan://a\r\ntrojan://b"`, the filter returns the text unchanged, yet its saved copy counts as changed; SaveThenCheckFiltered states the general if-and-only-if |
| Updater.FetchTrojanData | scripts/fetch_subscriptions.py:11-32 | the fetch yields content iff the request got a non-error status and a body that is not all whitespace; the content is the stripped body, non-empty with non-space ends |
| Updater.FilteredContent | scripts/fetch_subscriptions.py:115-125 | `main` goes on iff the fetch succeeded and some fetched line is a Trojan line; it goes on with the filter of the fetched content, which is non-empty and its own filter |
| Updater.ExitStatus | scripts/fetch_subscriptions.py:148-150 | the exit status is 0 iff `main` succeeded, 1 otherwise |
| Updater.AfterWrite | scripts/fetch_subscriptions.py:49-57 | the file after `open(..., 'w')` and `write`: characterised by SubscriptionFile.Save and RunTouchesFileOnlyOnChange |
| Updater.RunOutcome | scripts/fetch_subscriptions.py:109-146 | the result and file of one run of `main`: characterised by RunWithoutContent, RunSuccessIff, RunTouchesFileOnlyOnChange and SecondRunKeepsFile, and computed by SubscriptionFile.Run |
| Updater.SubscriptionFile.HasContentChanged | scripts/fetch_subscriptions.py:59-97 | the loop over the stored lines answers exactly the function `ContentChanged`: changed with no file, a read error, or no `trojan://`, otherwise iff the body from the first marked line differs |
| Updater.SubscriptionFile.Save | scripts/fetch_subscriptions.py:34-57 | succeeds iff the write does not fault; the file becomes the header followed by the content, stays as it was when opening fails, and becomes a prefix of that text when writing breaks off after truncation |
| Updater.SubscriptionFile.Run | scripts/fetch_subscriptions.py:109-146 | `main`'s result and the file it leaves are those of the pipeline fetch, filter, empty check, change check, save |
| Updater.RunWithoutContent | scripts/fetch_subscriptions.py:115-125 | a failed fetch or a text without Trojan lines fails the run and leaves the file untouched |
| Updater.RunTouchesFileOnlyOnChange | scripts/fetch_subscriptions.py:109-146 | the file changes only when there is filtered content that counts as changed, and then becomes a prefix of the header followed by that content |
| Updater.RunSuccessIff | scripts/fetch_subscriptions.py:109-146 | a run succeeds iff there is filtered content and it is unchanged or saved without fault |
| Updater.FilteredWithoutCarriageReturn | scripts/fetch_subscriptions.py:18-107 | a response body without carriage returns gives filtered content without them |
| Updater.SecondRunKeepsFile | scripts/fetch_subscriptions.py:109-146 | after a clean successful run, a second run on the same carriage-return-free response succeeds and leaves the file alone |
| Updater.NewContentReplacesFile | scripts/fetch_subscriptions.py:109-146 | after a successful run on a carriage-return-free response, a run with different filtered content succeeds and leaves the new header followed by the new content |
| Updater.CarriageReturnRewritesEveryRun | scripts/fetch_subscriptions.py:109-146 | with a carriage return in the filtered content, every run rewrites the file with the new time, because the read at lines 67-68 drops it |

## Left out

- The HTTP request itself (`requests.get` with its 15-second timeout, and the exception classes) is not modelled. The response is an input: a transport error, or a status code and the decoded body. `raise_for_status` is modelled as rejecting statuses 400 to 599.
- The file system is not modelled. `os.makedirs`, `os.path.join`, `os.path.exists` and UTF-8 encoding and decoding are out of the model. The output file is one `Option<string>`. Read failures (including decoding errors) are a boolean input. Write failures are a `WriteFault` input.
- Updater.SubscriptionFile.Save: a write that breaks off after truncation leaves an arbitrary prefix of the text, chosen by the input. The exact amount Python flushes is not modelled.
- On Windows, text mode would write `"\n"` as `"\r\n"`. The model uses the POSIX write, which stores the text unchanged.
- `datetime.now()` is a `DateTime` parameter. ArtifactHeader.Decimal writes years below 1000 without zero padding; platforms that pad `%Y` to four digits differ.
- MD5 is modelled as equality of the digested texts. A digest collision, which would make two different bodies compare equal, is not modelled.
- No `print` diagnostics are modelled, including the dropped-line message, the sample of the first three configurations and the banners. They do not affect the result or the file. The dropped-line count is modelled by TrojanFilter.DroppedLineCount.
- The `else ''` branch at line 85 cannot be reached, because the boundary is always a valid line index. The model keeps it in `HasContentChanged`.
