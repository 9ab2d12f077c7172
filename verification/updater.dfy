/**
 * The update script as a whole: fetch the subscription list, filter it,
 * decide whether it changed, and rewrite the output file
 * `subscriptions/trojan_subscriptions.txt` when it did. The file is the one
 * piece of state; the HTTP response, the clock and the outcome of file
 * operations are inputs.
 */
module Updater {
  import opened Wrappers
  import opened Text
  import opened TrojanFilter
  import opened ArtifactHeader
  import opened ChangeDetection

  /** What `requests.get` produced: a transport error, or a status code and the decoded body. */
  datatype HttpResponse = TransportError | Response(status: nat, text: string)

  /** The statuses `raise_for_status` raises for. */
  predicate IsHttpError(status: nat)
  {
    400 <= status < 600
  }

  /**
   * `fetch_trojan_data`: the stripped body when the request succeeded and
   * the body is not blank, `None` otherwise.
   */
  function FetchTrojanData(response: HttpResponse): (content: Option<string>)
    ensures content.Some? <==>
      response.Response? && !IsHttpError(response.status) &&
      exists k :: 0 <= k < |response.text| && !IsSpace(response.text[k])
    ensures content.Some? ==> content.value == Strip(response.text)
    ensures content.Some? ==>
      content.value != "" && !IsSpace(content.value[0]) && !IsSpace(content.value[|content.value| - 1])
  {
    match response
    case TransportError => None
    case Response(status, text) =>
      if IsHttpError(status) then None
      else
        StripEmptyIff(text);
        StripEdges(text);
        var content := Strip(text);
        if content == "" then None else Some(content)
  }

  /**
   * The text `main` goes on with: the fetched content after the filter, or
   * `None` when the fetch failed or no Trojan line was left.
   */
  function FilteredContent(response: HttpResponse): (filtered: Option<string>)
    ensures filtered.Some? <==>
      FetchTrojanData(response).Some? && !NoTrojanLine(Split(FetchTrojanData(response).value))
    ensures filtered.Some? ==> filtered.value == FilterTrojanLines(FetchTrojanData(response).value)
    ensures filtered.Some? ==> filtered.value != ""
    ensures filtered.Some? ==> response.Response? && !IsHttpError(response.status)
    ensures filtered.Some? ==> FilterTrojanLines(filtered.value) == filtered.value
  {
    match FetchTrojanData(response)
    case None => None
    case Some(content) =>
      FilterEmptyIff(content);
      FilterIdempotent(content);
      var filtered := FilterTrojanLines(content);
      if filtered == "" then None else Some(filtered)
  }

  /**
   * How writing the file can fail: before the file is opened for writing
   * (directory creation or `open` raises; the old file is intact), or after
   * `open(..., 'w')` has truncated it, with `written` characters stored.
   */
  datatype WriteFault = NoFault | FailsBeforeTruncate | FailsAfterTruncate(written: nat)

  /** The file after an attempt to write `text` over `stored`. */
  function AfterWrite(stored: Option<string>, text: string, fault: WriteFault): Option<string>
  {
    match fault
    case NoFault => Some(text)
    case FailsBeforeTruncate => stored
    case FailsAfterTruncate(written) => Some(text[..if written < |text| then written else |text|])
  }

  /** The result of one run of `main` and the file it leaves. */
  datatype Outcome = Outcome(success: bool, stored: Option<string>)

  /** One run of `main`, from the file before the run. */
  function RunOutcome(stored: Option<string>, response: HttpResponse, now: DateTime,
                      readFails: bool, fault: WriteFault): Outcome
    requires ValidDateTime(now)
  {
    match FilteredContent(response)
    case None => Outcome(false, stored)
    case Some(filtered) =>
      if !ContentChanged(stored, filtered, readFails) then Outcome(true, stored)
      else Outcome(fault.NoFault?, AfterWrite(stored, Header(now) + filtered, fault))
  }

  /** `exit(0 if success else 1)`. */
  function ExitStatus(success: bool): (code: int)
    ensures code == 0 <==> success
    ensures code == 0 || code == 1
  {
    if success then 0 else 1
  }

  /** The output file; `stored` is `None` while it does not exist. */
  class SubscriptionFile {
    var stored: Option<string>

    constructor (initial: Option<string>)
      ensures stored == initial
    {
      stored := initial;
    }

    /** `has_content_changed(newContent)`; `readFails` says whether reading the file raises. */
    method HasContentChanged(newContent: string, readFails: bool) returns (changed: bool)
      ensures changed == ContentChanged(stored, newContent, readFails)
    {
      if stored.None? {
        return true;
      }
      if readFails {
        return true;
      }
      var oldContent := ReadTranslated(stored.value);
      var lines := Split(oldContent);
      var contentStart := 0;
      var i := 0;
      ghost var found := false;
      while i < |lines|
        invariant 0 <= i <= |lines|
        invariant contentStart == 0 && !found
        invariant forall j :: 0 <= j < i ==> !IsMarked(lines[j])
      {
        if IsMarked(lines[i]) {
          contentStart := i;
          found := true;
          break;
        }
        i := i + 1;
      }
      assert found ==> FirstMarkedLine(lines) == Some(contentStart);
      assert !found ==> FirstMarkedLine(lines).None?;
      PreviousBodyFound(oldContent);
      if contentStart == 0 && !Contains(oldContent, Marker) {
        return true;
      }
      var oldMainContent := if contentStart < |lines| then Join(lines[contentStart..]) else "";
      changed := oldMainContent != newContent;
    }

    /** `save_trojan_file(content)`, at time `now`. */
    method Save(content: string, now: DateTime, fault: WriteFault) returns (ok: bool)
      requires ValidDateTime(now)
      modifies this
      ensures ok <==> fault.NoFault?
      ensures stored == AfterWrite(old(stored), Header(now) + content, fault)
    {
      var header := Title + "\n";
      header := header + Rule + "\n";
      header := header + UpdatedLabel + Timestamp(now) + "\n";
      header := header + SourceLabel + TrojanUrl + "\n";
      header := header + Rule + "\n\n";
      var text := header + content;
      match fault {
        case NoFault =>
          stored := Some(text);
          ok := true;
        case FailsBeforeTruncate =>
          ok := false;
        case FailsAfterTruncate(written) =>
          stored := Some(text[..if written < |text| then written else |text|]);
          ok := false;
      }
    }

    /** `main()`: fetch, filter, check for a change, save. */
    method Run(response: HttpResponse, now: DateTime, readFails: bool, fault: WriteFault)
      returns (success: bool)
      requires ValidDateTime(now)
      modifies this
      ensures Outcome(success, stored) == RunOutcome(old(stored), response, now, readFails, fault)
    {
      var fetched := FetchTrojanData(response);
      if fetched.None? {
        return false;
      }
      var filtered := FilterTrojanLines(fetched.value);
      if filtered == "" {
        return false;
      }
      var changed := HasContentChanged(filtered, readFails);
      if changed {
        success := Save(filtered, now, fault);
      } else {
        success := true;
      }
    }
  }

  // ---------------------------------------------------------------------

  /** A failed fetch or a text without Trojan lines fails the run and leaves the file as it was. */
  lemma RunWithoutContent(stored: Option<string>, response: HttpResponse, now: DateTime,
                          readFails: bool, fault: WriteFault)
    requires ValidDateTime(now)
    requires FetchTrojanData(response).None? || FilterTrojanLines(FetchTrojanData(response).value) == ""
    ensures RunOutcome(stored, response, now, readFails, fault) == Outcome(false, stored)
  {
  }

  /**
   * The file changes only when there is filtered content that counts as
   * changed; then it is replaced by the header and that content, or by a
   * prefix of them when the write breaks off.
   */
  lemma RunTouchesFileOnlyOnChange(stored: Option<string>, response: HttpResponse, now: DateTime,
                                   readFails: bool, fault: WriteFault)
    requires ValidDateTime(now)
    ensures var after := RunOutcome(stored, response, now, readFails, fault).stored;
      after != stored ==>
        FilteredContent(response).Some? &&
        ContentChanged(stored, FilteredContent(response).value, readFails) &&
        after.Some? && StartsWith(Header(now) + FilteredContent(response).value, after.value)
  {
  }

  /**
   * A run succeeds exactly when there is filtered content and it either
   * counts as unchanged or is written without fault.
   */
  lemma RunSuccessIff(stored: Option<string>, response: HttpResponse, now: DateTime,
                      readFails: bool, fault: WriteFault)
    requires ValidDateTime(now)
    ensures RunOutcome(stored, response, now, readFails, fault).success <==>
      FilteredContent(response).Some? &&
      (!ContentChanged(stored, FilteredContent(response).value, readFails) || fault.NoFault?)
  {
  }

  /** A response body without carriage returns gives filtered content without them. */
  lemma FilteredWithoutCarriageReturn(response: HttpResponse)
    requires response.Response? && '\r' !in response.text
    requires FilteredContent(response).Some?
    ensures '\r' !in FilteredContent(response).value
  {
    var content := FetchTrojanData(response).value;
    if '\r' in FilterTrojanLines(content) {
      FilterCharacters(content, '\r');
      StripCharacters(response.text, '\r');
    }
  }

  /**
   * Two runs on the same response: once the first has succeeded with a
   * clean write, the second finds nothing changed, succeeds and leaves the
   * file alone, provided the body has no carriage returns.
   */
  lemma SecondRunKeepsFile(stored: Option<string>, response: HttpResponse, first: DateTime,
                           second: DateTime, readFails: bool, fault: WriteFault)
    requires ValidDateTime(first) && ValidDateTime(second)
    requires response.Response? && '\r' !in response.text
    requires RunOutcome(stored, response, first, readFails, NoFault).success
    ensures var written := RunOutcome(stored, response, first, readFails, NoFault).stored;
      RunOutcome(written, response, second, false, fault) == Outcome(true, written)
  {
    var filtered := FilteredContent(response).value;
    FilteredWithoutCarriageReturn(response);
    if ContentChanged(stored, filtered, readFails) {
      var content := FetchTrojanData(response).value;
      SaveThenCheckFiltered(first, content);
    }
  }

  /**
   * After a successful run on a carriage-return-free response, a run whose
   * filtered content is different finds it changed and, written without
   * fault, leaves the new header followed by the new content.
   */
  lemma NewContentReplacesFile(stored: Option<string>, response: HttpResponse, next: HttpResponse,
                               first: DateTime, second: DateTime, readFails: bool)
    requires ValidDateTime(first) && ValidDateTime(second)
    requires response.Response? && '\r' !in response.text
    requires RunOutcome(stored, response, first, readFails, NoFault).success
    ensures var written := RunOutcome(stored, response, first, readFails, NoFault).stored;
      FilteredContent(next).Some? && FilteredContent(next) != FilteredContent(response) ==>
        RunOutcome(written, next, second, false, NoFault) ==
          Outcome(true, Some(Header(second) + FilteredContent(next).value))
  {
    var filtered := FilteredContent(response).value;
    var written := RunOutcome(stored, response, first, readFails, NoFault).stored;
    if FilteredContent(next).None? || FilteredContent(next) == FilteredContent(response) {
    } else if ContentChanged(stored, filtered, readFails) {
      FilteredWithoutCarriageReturn(response);
      FilteredLines(FetchTrojanData(response).value);
      SaveThenCheckDifferent(first, filtered, FilteredContent(next).value);
    } else {
      assert written == stored;
    }
  }

  /**
   * With a carriage return in the filtered content, every run finds the
   * file changed and rewrites it, with the new time in the header.
   */
  lemma CarriageReturnRewritesEveryRun(response: HttpResponse, first: DateTime, second: DateTime)
    requires ValidDateTime(first) && ValidDateTime(second)
    requires FilteredContent(response).Some? && '\r' in FilteredContent(response).value
    ensures var filtered := FilteredContent(response).value;
      RunOutcome(Some(Header(first) + filtered), response, second, false, NoFault) ==
        Outcome(true, Some(Header(second) + filtered))
  {
    var content := FetchTrojanData(response).value;
    SaveThenCheckFiltered(first, content);
  }
}
