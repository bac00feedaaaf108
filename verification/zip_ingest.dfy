/** The server action that ingests a ZIP upload (`ingestZipAction` in
    src/app/actions.ts). The archive decoder and the per-file ingest request
    are outside the model: an upload arrives already decoded into its
    entries, and each entry carries the outcome its ingest request would
    have. The action is a fold over the entries that tallies successes and
    failures, collects one error line per failure, and records the ingest
    requests it issues. */
module ZipIngest {
  import opened Wrappers
  import opened Text
  import opened Decimal
  import opened Sequences

  /** What happened to one entry inside the loop's `try`: the ingest request
      was sent and succeeded; it was sent and threw (the HTTP client rejected
      it: an error status, a timeout, a network failure); or reading the entry's data threw before
      any request was sent (an encrypted entry, a bad checksum, an unknown
      compression method). `message` is the thrown error's message. */
  datatype IngestOutcome = Accepted | Rejected(message: string) | Unreadable(message: string)

  /** One archive entry: its full path inside the archive, whether it is a
      directory, and the outcome of ingesting it. */
  datatype Entry = Entry(entryName: string, isDirectory: bool, outcome: IngestOutcome)

  /** The `file` field of the submitted form: absent, present but not a
      readable archive (the decoder's error message), or a decoded archive. */
  datatype Upload = NoFile | Corrupt(reason: string) | Archive(entries: seq<Entry>)

  /** One call of the backend's ingest endpoint: the file name sent, its
      MIME type, and the session it is filed under. */
  datatype IngestCall = IngestCall(fileName: string, mimeType: string, sessionId: string)

  /** The loop's running state. */
  datatype Tally = Tally(successCount: nat, failCount: nat, errors: seq<string>, calls: seq<IngestCall>)

  /** The object the action resolves with. */
  datatype Summary = Summary(success: bool, message: string, errors: Option<seq<string>>)

  /** The ingest requests issued, and the action's resolution or thrown message. */
  datatype Run = Run(calls: seq<IngestCall>, result: Result<Summary, string>)

  const MissingInput := "Missing file or sessionId"
  const FailurePrefix := "Failed to process zip: "
  const ErrorSeparator := ", "
  const UnknownError := "Unknown error"
  const PdfMime := "application/pdf"
  const TextMime := "text/plain"
  const ProcessedPrefix := "Processed "
  const ProcessedSuffix := " files successfully."
  const FailedPrefix := " Failed "
  const FailedSuffix := " files."

  // ---------------------------------------------------------------- entries

  /** The entry name, lower-cased, ends in ".pdf" or ".txt". */
  predicate HasIngestExtension(name: string) {
    var lower := ToLower(name);
    EndsWith(lower, ".pdf") || EndsWith(lower, ".txt")
  }

  predicate IsEligible(e: Entry) {
    !e.isDirectory && HasIngestExtension(e.entryName)
  }

  predicate IsSuccess(e: Entry) {
    IsEligible(e) && e.outcome.Accepted?
  }

  predicate IsFailure(e: Entry) {
    IsEligible(e) && !e.outcome.Accepted?
  }

  /** An ingest request is sent for the entry: it is eligible and its data
      could be read. */
  predicate IsRequested(e: Entry) {
    IsEligible(e) && !e.outcome.Unreadable?
  }

  function MimeType(name: string): string {
    if EndsWith(ToLower(name), ".pdf") then PdfMime else TextMime
  }

  /** The file name the decoder reports for an entry: the last
      '/'-separated component of its path. */
  function BaseName(path: string): (r: string)
    ensures |r| <= |path| && r == path[|path| - |r|..]
    ensures '/' !in r
    ensures |r| < |path| ==> path[|path| - |r| - 1] == '/'
  {
    if |path| == 0 || path[|path| - 1] == '/' then ""
    else BaseName(path[..|path| - 1]) + [path[|path| - 1]]
  }

  function CallFor(e: Entry, sessionId: string): IngestCall {
    IngestCall(BaseName(e.entryName), MimeType(e.entryName), sessionId)
  }

  /** An empty error message is reported as "Unknown error". */
  function Detail(message: string): string {
    if message == "" then UnknownError else message
  }

  function ErrorLine(e: Entry): string
    requires !e.outcome.Accepted?
  {
    e.entryName + ": " + Detail(e.outcome.message)
  }

  // ---------------------------------------------------------------- the loop

  /** One iteration of the loop over the archive's entries. */
  function Step(t: Tally, e: Entry, sessionId: string): Tally {
    if e.isDirectory then t
    else if !HasIngestExtension(e.entryName) then t
    else match e.outcome
      case Accepted =>
        t.(successCount := t.successCount + 1,
           calls := t.calls + [CallFor(e, sessionId)])
      case Rejected(_) =>
        t.(failCount := t.failCount + 1,
           errors := t.errors + [ErrorLine(e)],
           calls := t.calls + [CallFor(e, sessionId)])
      case Unreadable(_) =>
        t.(failCount := t.failCount + 1,
           errors := t.errors + [ErrorLine(e)])
  }

  /** The loop itself: every entry, in archive order, from tally `t`. */
  function FoldEntries(t: Tally, es: seq<Entry>, sessionId: string): Tally
    decreases |es|
  {
    if |es| == 0 then t else FoldEntries(Step(t, es[0], sessionId), es[1..], sessionId)
  }

  // ---------------------------------------------------------------- reference view

  /** The entries the action tries to ingest, in archive order. */
  function Eligible(es: seq<Entry>): seq<Entry> {
    Filter(es, IsEligible)
  }

  function Successes(es: seq<Entry>): seq<Entry> {
    Filter(es, IsSuccess)
  }

  function Failures(es: seq<Entry>): seq<Entry> {
    Filter(es, IsFailure)
  }

  /** The entries an ingest request is sent for, in archive order. */
  function Requested(es: seq<Entry>): seq<Entry> {
    Filter(es, IsRequested)
  }

  /** The error line of each failed entry, in order. */
  function ErrorLines(fs: seq<Entry>): (r: seq<string>)
    requires forall i :: 0 <= i < |fs| ==> !fs[i].outcome.Accepted?
    ensures |r| == |fs|
    ensures forall i :: 0 <= i < |fs| ==> r[i] == ErrorLine(fs[i])
  {
    if |fs| == 0 then [] else [ErrorLine(fs[0])] + ErrorLines(fs[1..])
  }

  /** The ingest call for each entry, in order. */
  function CallsFor(es: seq<Entry>, sessionId: string): seq<IngestCall> {
    Map(e => CallFor(e, sessionId), es)
  }

  lemma CallsForCons(e: Entry, es: seq<Entry>, sessionId: string)
    ensures CallsFor([e] + es, sessionId) == [CallFor(e, sessionId)] + CallsFor(es, sessionId)
  {
    MapCons(e => CallFor(e, sessionId), e, es);
  }

  lemma ErrorLinesCons(e: Entry, fs: seq<Entry>)
    requires !e.outcome.Accepted?
    requires forall i :: 0 <= i < |fs| ==> !fs[i].outcome.Accepted?
    ensures ErrorLines([e] + fs) == [ErrorLine(e)] + ErrorLines(fs)
  {
    assert ([e] + fs)[1..] == fs;
  }

  /** The tally `t` plus everything the reference view attributes to `es`. */
  function Expected(t: Tally, es: seq<Entry>, sessionId: string): Tally {
    Tally(t.successCount + |Successes(es)|,
          t.failCount + |Failures(es)|,
          t.errors + ErrorLines(Failures(es)),
          t.calls + CallsFor(Requested(es), sessionId))
  }

  /** One step of the loop moves the first entry's share of the reference
      view from the remaining entries into the tally. */
  lemma StepExpected(t: Tally, es: seq<Entry>, sessionId: string)
    requires |es| > 0
    ensures Expected(Step(t, es[0], sessionId), es[1..], sessionId) == Expected(t, es, sessionId)
  {
    assert es == [es[0]] + es[1..];
    if !IsEligible(es[0]) {
      StepSkipped(t, es[0], es[1..], sessionId);
    } else if es[0].outcome.Unreadable? {
      StepUnreadable(t, es[0], es[1..], sessionId);
    } else if es[0].outcome.Accepted? {
      StepAccepted(t, es[0], es[1..], sessionId);
    } else {
      StepRejected(t, es[0], es[1..], sessionId);
    }
  }

  lemma StepSkipped(t: Tally, e: Entry, rest: seq<Entry>, sessionId: string)
    requires !IsEligible(e)
    ensures Expected(Step(t, e, sessionId), rest, sessionId) == Expected(t, [e] + rest, sessionId)
  {
    var es := [e] + rest;
    assert Step(t, e, sessionId) == t;
    assert Requested(es) == Requested(rest) by { FilterCons(e, rest, IsRequested); }
    assert Successes(es) == Successes(rest) by { FilterCons(e, rest, IsSuccess); }
    assert Failures(es) == Failures(rest) by { FilterCons(e, rest, IsFailure); }
  }

  /** A failed eligible entry extends the error list by its line, in front
      of the lines for the entries after it. */
  lemma ErrorsStep(errors: seq<string>, e: Entry, rest: seq<Entry>)
    requires IsFailure(e)
    ensures errors + [ErrorLine(e)] + ErrorLines(Failures(rest))
         == errors + ErrorLines(Failures([e] + rest))
  {
    var es := [e] + rest;
    assert Failures(es) == [e] + Failures(rest) by { FilterCons(e, rest, IsFailure); }
    ErrorLinesCons(e, Failures(rest));
    ConcatAssoc(errors, [ErrorLine(e)], ErrorLines(Failures(rest)));
  }

  lemma StepUnreadable(t: Tally, e: Entry, rest: seq<Entry>, sessionId: string)
    requires IsEligible(e) && e.outcome.Unreadable?
    ensures Expected(Step(t, e, sessionId), rest, sessionId) == Expected(t, [e] + rest, sessionId)
  {
    var es, t' := [e] + rest, Step(t, e, sessionId);
    assert t'.successCount == t.successCount && t'.failCount == t.failCount + 1;
    assert t'.errors == t.errors + [ErrorLine(e)] && t'.calls == t.calls;
    assert Requested(es) == Requested(rest) by { FilterCons(e, rest, IsRequested); }
    assert Successes(es) == Successes(rest) by { FilterCons(e, rest, IsSuccess); }
    assert Failures(es) == [e] + Failures(rest) by { FilterCons(e, rest, IsFailure); }
    assert t'.errors + ErrorLines(Failures(rest)) == t.errors + ErrorLines(Failures(es)) by {
      ErrorsStep(t.errors, e, rest);
    }
  }

  /** Requesting a readable eligible entry extends the request list by its
      call, in front of the requests for the entries after it. */
  lemma CallsStep(calls: seq<IngestCall>, e: Entry, rest: seq<Entry>, sessionId: string)
    requires IsRequested(e)
    ensures calls + [CallFor(e, sessionId)] + CallsFor(Requested(rest), sessionId)
         == calls + CallsFor(Requested([e] + rest), sessionId)
  {
    var es := [e] + rest;
    assert Requested(es) == [e] + Requested(rest) by { FilterCons(e, rest, IsRequested); }
    CallsForCons(e, Requested(rest), sessionId);
    ConcatAssoc(calls, [CallFor(e, sessionId)], CallsFor(Requested(rest), sessionId));
  }

  lemma StepAccepted(t: Tally, e: Entry, rest: seq<Entry>, sessionId: string)
    requires IsEligible(e) && e.outcome.Accepted?
    ensures Expected(Step(t, e, sessionId), rest, sessionId) == Expected(t, [e] + rest, sessionId)
  {
    var es, t' := [e] + rest, Step(t, e, sessionId);
    var lhs, rhs := Expected(t', rest, sessionId), Expected(t, es, sessionId);
    assert lhs.successCount == rhs.successCount by {
      assert t'.successCount == t.successCount + 1;
      FilterCons(e, rest, IsSuccess);
    }
    assert lhs.failCount == rhs.failCount && lhs.errors == rhs.errors by {
      assert t'.failCount == t.failCount && t'.errors == t.errors;
      FilterCons(e, rest, IsFailure);
    }
    assert lhs.calls == rhs.calls by {
      assert t'.calls == t.calls + [CallFor(e, sessionId)];
      CallsStep(t.calls, e, rest, sessionId);
    }
  }

  lemma StepRejected(t: Tally, e: Entry, rest: seq<Entry>, sessionId: string)
    requires IsEligible(e) && e.outcome.Rejected?
    ensures Expected(Step(t, e, sessionId), rest, sessionId) == Expected(t, [e] + rest, sessionId)
  {
    var es, t' := [e] + rest, Step(t, e, sessionId);
    var lhs, rhs := Expected(t', rest, sessionId), Expected(t, es, sessionId);
    assert lhs.successCount == rhs.successCount by {
      assert t'.successCount == t.successCount;
      FilterCons(e, rest, IsSuccess);
    }
    assert lhs.failCount == rhs.failCount by {
      assert t'.failCount == t.failCount + 1;
      FilterCons(e, rest, IsFailure);
    }
    assert lhs.errors == rhs.errors by {
      assert t'.errors == t.errors + [ErrorLine(e)];
      ErrorsStep(t.errors, e, rest);
    }
    assert lhs.calls == rhs.calls by {
      assert t'.calls == t.calls + [CallFor(e, sessionId)];
      CallsStep(t.calls, e, rest, sessionId);
    }
  }

  /** The loop adds to its starting tally exactly: one success per accepted
      eligible entry, one failure and one error line per eligible entry that
      was rejected or could not be read (in archive order), and one ingest
      call per eligible entry whose data could be read (in archive order).
      Nothing else is counted or called. */
  lemma {:induction false} FoldEntriesCharacterized(t: Tally, es: seq<Entry>, sessionId: string)
    ensures FoldEntries(t, es, sessionId)
         == Tally(t.successCount + |Successes(es)|,
                  t.failCount + |Failures(es)|,
                  t.errors + ErrorLines(Failures(es)),
                  t.calls + CallsFor(Requested(es), sessionId))
    decreases |es|
  {
    if |es| == 0 {
      assert t.errors + [] == t.errors;
      assert t.calls + [] == t.calls;
    } else {
      FoldEntriesCharacterized(Step(t, es[0], sessionId), es[1..], sessionId);
      StepExpected(t, es, sessionId);
    }
  }

  /** Every eligible entry is either a success or a failure, never both;
      every success was requested, and only eligible entries are. */
  lemma {:induction false} CountsPartition(es: seq<Entry>)
    ensures |Successes(es)| + |Failures(es)| == |Eligible(es)|
    ensures |Successes(es)| <= |Requested(es)| <= |Eligible(es)|
    decreases |es|
  {
    if |es| > 0 {
      CountsPartition(es[1..]);
    }
  }

  // ---------------------------------------------------------------- summary

  function SummaryMessage(successCount: nat, failCount: nat): string {
    ProcessedPrefix + (NatToString(successCount) + (ProcessedSuffix + FailedTail(failCount)))
  }

  /** The tail of a summary message reports the failure count, or is empty
      when there were no failures. */
  function FailedTail(failCount: nat): string {
    if failCount > 0 then FailedPrefix + (NatToString(failCount) + FailedSuffix) else ""
  }

  /** Reads the two counts back out of a summary message. */
  function ParseSummary(msg: string): Option<(nat, nat)> {
    match StripPrefix(msg, ProcessedPrefix)
    case None => None
    case Some(afterPrefix) =>
      match ReadCount(afterPrefix)
      case None => None
      case Some((successCount, afterCount)) =>
        match StripPrefix(afterCount, ProcessedSuffix)
        case None => None
        case Some(tail) =>
          match ParseFailedTail(tail)
          case None => None
          case Some(failCount) => Some((successCount, failCount))
  }

  /** Reads the failure count out of the tail of a summary message. */
  function ParseFailedTail(tail: string): Option<nat> {
    if tail == [] then Some(0)
    else match StripPrefix(tail, FailedPrefix)
      case None => None
      case Some(afterPrefix) =>
        match ReadCount(afterPrefix)
        case Some((failCount, rest)) => if rest == FailedSuffix then Some(failCount) else None
        case None => None
  }

  lemma FailedTailRoundTrip(failCount: nat)
    ensures ParseFailedTail(FailedTail(failCount)) == Some(failCount)
  {
    if failCount > 0 {
      StripPrefixConcat(FailedPrefix, NatToString(failCount) + FailedSuffix);
      ReadCountOf(failCount, FailedSuffix);
    }
  }

  /** The summary message determines both counts. */
  lemma SummaryRoundTrip(successCount: nat, failCount: nat)
    ensures ParseSummary(SummaryMessage(successCount, failCount)) == Some((successCount, failCount))
  {
    var tail := FailedTail(failCount);
    var afterCount := ProcessedSuffix + tail;
    StripPrefixConcat(ProcessedPrefix, NatToString(successCount) + afterCount);
    assert afterCount[0] == ' ';
    ReadCountOf(successCount, afterCount);
    StripPrefixConcat(ProcessedSuffix, tail);
    FailedTailRoundTrip(failCount);
  }

  /** Different counts never produce the same summary message. */
  lemma SummaryMessageInjective(s1: nat, f1: nat, s2: nat, f2: nat)
    ensures SummaryMessage(s1, f1) == SummaryMessage(s2, f2) ==> s1 == s2 && f1 == f2
  {
    SummaryRoundTrip(s1, f1);
    SummaryRoundTrip(s2, f2);
  }

  /** After the loop: fail when nothing succeeded and something failed,
      otherwise resolve with the summary. */
  function Conclude(t: Tally): Result<Summary, string> {
    if t.successCount == 0 && t.failCount > 0 then
      Failure(FailurePrefix + Join(t.errors, ErrorSeparator))
    else
      Success(Summary(true, SummaryMessage(t.successCount, t.failCount),
                      if |t.errors| > 0 then Some(t.errors) else None))
  }

  // ---------------------------------------------------------------- the action

  /** The action on a decoded archive with a non-empty session id: the loop
      from an empty tally, then its conclusion. */
  function ArchiveRun(es: seq<Entry>, sessionId: string): Run {
    var t := FoldEntries(Tally(0, 0, [], []), es, sessionId);
    Run(t.calls, Conclude(t))
  }

  /** What the action does with a decoded archive, in terms of its entries:
      it issues one request per eligible entry whose data could be read, in
      archive order, fails
      exactly when no entry succeeded and at least one failed, with every
      error line joined into the message, and otherwise reports both counts
      and the error lines, if any. */
  lemma ArchiveRunCharacterized(es: seq<Entry>, sessionId: string)
    ensures var r := ArchiveRun(es, sessionId);
            var succeeded, failed := |Successes(es)|, |Failures(es)|;
            && r.calls == CallsFor(Requested(es), sessionId)
            && (r.result.Failure? <==> succeeded == 0 && failed > 0)
            && (r.result.Failure? ==>
                  r.result.error == FailurePrefix + Join(ErrorLines(Failures(es)), ErrorSeparator))
            && (r.result.Success? ==>
                  r.result.value == Summary(true, SummaryMessage(succeeded, failed),
                                            if failed > 0 then Some(ErrorLines(Failures(es))) else None))
  {
    ArchiveTally(es, sessionId);
    ConcludeOf(|Successes(es)|, |Failures(es)|, ErrorLines(Failures(es)), CallsFor(Requested(es), sessionId));
  }

  /** The loop over a whole archive, from an empty tally. */
  lemma ArchiveTally(es: seq<Entry>, sessionId: string)
    ensures FoldEntries(Tally(0, 0, [], []), es, sessionId)
         == Tally(|Successes(es)|, |Failures(es)|, ErrorLines(Failures(es)), CallsFor(Requested(es), sessionId))
  {
    var errors, calls := ErrorLines(Failures(es)), CallsFor(Requested(es), sessionId);
    FoldEntriesCharacterized(Tally(0, 0, [], []), es, sessionId);
    assert [] + errors == errors && [] + calls == calls;
  }

  /** The conclusion drawn from a tally whose error list has one line per
      failure. */
  lemma ConcludeOf(succeeded: nat, failed: nat, errors: seq<string>, calls: seq<IngestCall>)
    requires |errors| == failed
    ensures var r := Conclude(Tally(succeeded, failed, errors, calls));
            && (r.Failure? <==> succeeded == 0 && failed > 0)
            && (r.Failure? ==> r.error == FailurePrefix + Join(errors, ErrorSeparator))
            && (r.Success? ==>
                  r.value == Summary(true, SummaryMessage(succeeded, failed),
                                     if failed > 0 then Some(errors) else None))
  {
  }

  /** `ingestZipAction`: rejects a missing file or empty session id before
      reading anything, propagates a decoder failure, and otherwise ingests
      each eligible entry once, in order, without stopping at failures,
      sending a request for every one whose data could be read. */
  function IngestZipAction(upload: Upload, sessionId: string): (r: Run)
    ensures upload.NoFile? || sessionId == "" ==> r == Run([], Failure(MissingInput))
    ensures upload.Corrupt? && sessionId != "" ==> r == Run([], Failure(upload.reason))
    ensures upload.Archive? && sessionId != "" ==>
      var es := upload.entries;
      var succeeded, failed := |Successes(es)|, |Failures(es)|;
      && r.calls == CallsFor(Requested(es), sessionId)
      && (r.result.Failure? <==> succeeded == 0 && failed > 0)
      && (r.result.Failure? ==>
            r.result.error == FailurePrefix + Join(ErrorLines(Failures(es)), ErrorSeparator))
      && (r.result.Success? ==>
            r.result.value == Summary(true, SummaryMessage(succeeded, failed),
                                      if failed > 0 then Some(ErrorLines(Failures(es))) else None))
  {
    if upload.NoFile? || sessionId == "" then Run([], Failure(MissingInput))
    else match upload
      case Corrupt(reason) => Run([], Failure(reason))
      case Archive(es) =>
        ArchiveRunCharacterized(es, sessionId);
        ArchiveRun(es, sessionId)
  }

  // ---------------------------------------------------------------- properties

  /** Eligibility ignores letter case: the last four characters of the name
      are ".pdf" or ".txt" in any mix of upper and lower case. */
  lemma EligibleIgnoringCase(name: string)
    ensures HasIngestExtension(name)
        <==> |name| >= 4 && (EqualsIgnoringCase(name[|name| - 4..], ".pdf")
                             || EqualsIgnoringCase(name[|name| - 4..], ".txt"))
  {
    if |name| >= 4 {
      ToLowerSuffix(name, |name| - 4);
      LowerEqualsIffIgnoringCase(name[|name| - 4..], ".pdf");
      LowerEqualsIffIgnoringCase(name[|name| - 4..], ".txt");
    }
  }

  /** Every ingested file is sent as "application/pdf" exactly when its name
      ends in ".pdf" and as "text/plain" exactly when it ends in ".txt". */
  lemma MimeTypeOfEligible(e: Entry)
    requires IsEligible(e)
    ensures MimeType(e.entryName) == PdfMime <==> EndsWith(ToLower(e.entryName), ".pdf")
    ensures MimeType(e.entryName) == TextMime <==> EndsWith(ToLower(e.entryName), ".txt")
  {
  }

  /** Each eligible entry is tried exactly once, so the two counts add up to
      the number of eligible entries; one request is issued per readable
      eligible entry, so there are never more requests than eligible
      entries, nor fewer than successes. */
  lemma AttemptsEveryEligibleEntry(es: seq<Entry>, sessionId: string)
    requires sessionId != ""
    ensures var t := FoldEntries(Tally(0, 0, [], []), es, sessionId);
            && t.successCount + t.failCount == |Eligible(es)|
            && |t.errors| == t.failCount
            && |IngestZipAction(Archive(es), sessionId).calls| == |Requested(es)|
            && t.successCount <= |t.calls| <= |Eligible(es)|
  {
    FoldEntriesCharacterized(Tally(0, 0, [], []), es, sessionId);
    CountsPartition(es);
  }

  /** A failed request never stops later entries: which requests are issued
      depends only on the entries' names and kinds and on whether their data
      could be read, never on what the backend answered. */
  lemma {:induction false} CallsIgnoreAnswers(es: seq<Entry>, es': seq<Entry>, sessionId: string)
    requires |es| == |es'|
    requires forall i :: 0 <= i < |es| ==>
               && es[i].entryName == es'[i].entryName
               && es[i].isDirectory == es'[i].isDirectory
               && es[i].outcome.Unreadable? == es'[i].outcome.Unreadable?
    ensures IngestZipAction(Archive(es), sessionId).calls == IngestZipAction(Archive(es'), sessionId).calls
  {
    if sessionId != "" {
      RequestedIgnoresAnswers(es, es', sessionId);
    }
  }

  lemma {:induction false} RequestedIgnoresAnswers(es: seq<Entry>, es': seq<Entry>, sessionId: string)
    requires |es| == |es'|
    requires forall i :: 0 <= i < |es| ==>
               && es[i].entryName == es'[i].entryName
               && es[i].isDirectory == es'[i].isDirectory
               && es[i].outcome.Unreadable? == es'[i].outcome.Unreadable?
    ensures CallsFor(Requested(es), sessionId) == CallsFor(Requested(es'), sessionId)
    decreases |es|
  {
    if |es| > 0 {
      RequestedIgnoresAnswers(es[1..], es'[1..], sessionId);
      if IsRequested(es[0]) {
        assert Requested(es) == [es[0]] + Requested(es[1..]);
        assert Requested(es') == [es'[0]] + Requested(es'[1..]);
        CallsForCons(es[0], Requested(es[1..]), sessionId);
        CallsForCons(es'[0], Requested(es'[1..]), sessionId);
      } else {
        assert Requested(es) == Requested(es[1..]);
        assert Requested(es') == Requested(es'[1..]);
      }
    }
  }

  /** An eligible entry whose data cannot be read is counted as a failure
      with an error line, but no request is sent for it: the requests are
      those of the archive without it. */
  lemma UnreadableSendsNothing(a: seq<Entry>, x: Entry, b: seq<Entry>, sessionId: string)
    requires IsEligible(x) && x.outcome.Unreadable?
    ensures IngestZipAction(Archive(a + [x] + b), sessionId).calls
         == IngestZipAction(Archive(a + b), sessionId).calls
    ensures Failures(a + [x] + b) == Failures(a) + [x] + Failures(b)
  {
    FilterSkips(a, x, b, IsRequested);
    FilterConcat(a, [x], IsFailure);
    FilterConcat(a + [x], b, IsFailure);
    assert Filter([x], IsFailure) == [x];
  }

  /** A directory, or a file without a ".pdf"/".txt" extension, anywhere in
      the archive changes nothing: it is neither counted nor reported nor
      sent. */
  lemma SkippedEntryChangesNothing(a: seq<Entry>, x: Entry, b: seq<Entry>, sessionId: string)
    requires !IsEligible(x)
    ensures IngestZipAction(Archive(a + [x] + b), sessionId) == IngestZipAction(Archive(a + b), sessionId)
  {
    FilterSkips(a, x, b, IsEligible);
    FilterSkips(a, x, b, IsSuccess);
    FilterSkips(a, x, b, IsFailure);
    FilterSkips(a, x, b, IsRequested);
  }

  /** When the whole upload fails, its message names every failed entry
      together with that entry's error detail. */
  lemma FailureMentionsEveryError(es: seq<Entry>, sessionId: string, i: nat)
    requires i < |Failures(es)|
    ensures var r := IngestZipAction(Archive(es), sessionId).result;
            r.Failure? && sessionId != "" ==> IsInfix(ErrorLine(Failures(es)[i]), r.error)
  {
    var r := IngestZipAction(Archive(es), sessionId).result;
    if r.Failure? && sessionId != "" {
      var lines := ErrorLines(Failures(es));
      assert lines[i] == ErrorLine(Failures(es)[i]);
      JoinContains(lines, ErrorSeparator, i);
      InfixAfterPrefix(lines[i], FailurePrefix, Join(lines, ErrorSeparator));
    }
  }

  /** Each error line starts with the entry's path, in its original case,
      and ends with a non-empty detail: the thrown error's message (for a
      failed request, the HTTP client's error text, not the backend's
      detail), or "Unknown error" when that message is empty. */
  lemma ErrorLineShape(e: Entry)
    requires !e.outcome.Accepted?
    ensures StartsWith(ErrorLine(e), e.entryName + ": ")
    ensures var detail := ErrorLine(e)[|e.entryName| + 2..];
            && detail != ""
            && (e.outcome.message != "" ==> detail == e.outcome.message)
            && (e.outcome.message == "" ==> detail == UnknownError)
  {
  }

  /** An archive with nothing to ingest succeeds with zero files processed. */
  lemma NothingEligibleSucceeds(es: seq<Entry>, sessionId: string)
    requires sessionId != ""
    requires forall i :: 0 <= i < |es| ==> !IsEligible(es[i])
    ensures IngestZipAction(Archive(es), sessionId)
         == Run([], Success(Summary(true, ProcessedPrefix + "0" + ProcessedSuffix, None)))
  {
    NoEligible(es);
    EmptySummaryMessage();
    ConcludeOf(0, 0, [], []);
  }

  /** With no counts the message is "Processed 0 files successfully.". */
  lemma EmptySummaryMessage()
    ensures SummaryMessage(0, 0) == ProcessedPrefix + "0" + ProcessedSuffix
  {
    assert NatToString(0) == "0";
    assert FailedTail(0) == "";
    assert ProcessedSuffix + "" == ProcessedSuffix;
  }

  lemma {:induction false} NoEligible(es: seq<Entry>)
    requires forall i :: 0 <= i < |es| ==> !IsEligible(es[i])
    ensures Eligible(es) == [] && Successes(es) == [] && Failures(es) == [] && Requested(es) == []
    decreases |es|
  {
    if |es| > 0 {
      NoEligible(es[1..]);
    }
  }
}
