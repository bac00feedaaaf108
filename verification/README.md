# AI Recruiter front end — a Dafny model of its core

This project models three pieces of the recruiter assistant's web front end.

- **ZIP ingest** (`ingestZipAction`, src/app/actions.ts). This server action receives a ZIP archive of CVs and a session id.
  - It walks the archive's entries in order.
  - It sends every `.pdf` and `.txt` file whose data can be read, matched case-insensitively, to the backend's ingest endpoint.
  - It counts successes and failures and collects one error line per failure.
  - It then throws if nothing succeeded and something failed. Otherwise it resolves with a summary message of the form "Processed N files successfully. Failed M files.".
  - Module `ZipIngest` models the action as a fold over the decoded entries.
    - Each entry carries what happens to it inside the loop's `try`, which is one of three outcomes:
      - the request was sent and accepted;
      - the request was sent and threw;
      - reading the entry's data threw before any request was sent.
    - The fold records the ingest requests it actually sends.
    - A failed request and an unreadable entry both count as a failure with an error line. Only the failed request was sent.
  - A reference view of the fold filters the entries into four lists: eligible, accepted, failed, and requested (eligible and readable). The central lemma equates the loop with that view.
- **Session id** (`getOrCreateSessionId`, src/lib/sessionUtils.ts). This is a read-through cache over local storage under the key `ai_recruiter_session_id`.
  - Module `SessionIdentity` models local storage as a map, the presence of `window` as a flag, and the generated UUID as a parameter.
  - It logs every storage access.
- **Chat transcript** (`ChatContainer`, src/components/ChatContainer.tsx). The transcript is the greeting, followed by the user's trimmed questions and the backend's answers.
  - Module `ChatSession` splits `handleSend` into its synchronous half (`Send`) and its asynchronous half (`Reply`).
  - It proves that every run of allowed events keeps the transcript well formed and append-only.
  - Well formed means:
    - the greeting comes first;
    - roles alternate;
    - user messages are non-empty and trimmed;
    - loading is on exactly when a question awaits its answer.

Helper modules:

- `Wrappers` provides `Option` and `Result`.
- `Text` provides:
  - ASCII lower-casing;
  - prefixes and suffixes;
  - the ECMAScript `trim` over the WhiteSpace and LineTerminator code points;
  - `Array.prototype.join`.
- `Decimal` converts between a `nat` and its decimal string, as a template literal prints it, and parses the string back.
- `Sequences` provides the generic `Filter` and `Map` and facts about them.

## Model

| member | source | states |
|---|---|---|
| ZipIngest.IngestZipAction | src/app/actions.ts:6-60 | A missing file or empty session id fails with "Missing file or sessionId" before any request. A decoder error is propagated. For an archive, one request is sent per eligible entry whose data could be read, in order. The action fails exactly when no entry succeeded and at least one failed, with every error line joined into the message. Otherwise it resolves with both counts and the error lines, if any. |
| ZipIngest.FoldEntriesCharacterized | src/app/actions.ts:19-49 | The loop adds exactly one success per accepted eligible entry. It adds one failure and one error line per eligible entry that was rejected or could not be read. It sends one request per eligible entry whose data could be read, and none for an unreadable one. Errors and requests stay in archive order. |
| ZipIngest.ArchiveRunCharacterized | src/app/actions.ts:19-59 | For a decoded archive, the loop followed by its conclusion is described entirely by the accepted, failed and requested entries. |
| ZipIngest.CountsPartition | src/app/actions.ts:23-48 | Every eligible entry is counted as exactly one of success or failure. There are at least as many requests as successes and no more than eligible entries. |
| ZipIngest.AttemptsEveryEligibleEntry | src/app/actions.ts:23-49 | The two counts add up to the number of eligible entries. There is one error line per failure and one request per readable eligible entry. So there are at least as many requests as successes and at most as many as eligible entries. |
| ZipIngest.CallsIgnoreAnswers | src/app/actions.ts:31-48 | A failed request does not stop the loop. The requests sent depend only on entry names, kinds and whether each entry's data could be read, never on what the backend answered. |
| ZipIngest.RequestedIgnoresAnswers | src/app/actions.ts:23-42 | Two archives that agree on names, kinds and readability give the same list of requests. |
| ZipIngest.UnreadableSendsNothing | src/app/actions.ts:31-48 | An eligible entry whose data cannot be read sends no request: the requests are those of the archive without it. It still appears, in place, among the failures. |
| ZipIngest.SkippedEntryChangesNothing | src/app/actions.ts:24-29 | A directory, or a file without a .pdf/.txt extension, at any position leaves the whole result unchanged. |
| ZipIngest.EligibleIgnoringCase | src/app/actions.ts:26-29 | A name has an ingest extension iff its last four characters equal ".pdf" or ".txt" in any mix of case. |
| ZipIngest.MimeTypeOfEligible | src/app/actions.ts:35-37 | An eligible file is sent as application/pdf iff its lower-cased name ends in .pdf, and as text/plain iff it ends in .txt. |
| ZipIngest.BaseName | src/app/actions.ts:38-40 | The file name sent is the suffix of the entry path after its last '/', and contains no '/'. |
| ZipIngest.ErrorLineShape | src/app/actions.ts:47 | For a rejected or unreadable entry, the error line starts with the entry path followed by ": ". What follows is the thrown error's message, or "Unknown error" when that message is empty, and is never empty. For a failed request that message is the HTTP client's error text, not the backend's detail. |
| ZipIngest.FailureMentionsEveryError | src/app/actions.ts:44-53 | When the whole upload fails, its message contains the error line of every failed entry. |
| ZipIngest.NothingEligibleSucceeds | src/app/actions.ts:19-59 | An archive with no eligible entry issues no request and resolves with "Processed 0 files successfully." and no errors. |
| ZipIngest.EmptySummaryMessage | src/app/actions.ts:57 | With both counts 0 the summary message is "Processed 0 files successfully.". |
| ZipIngest.FailedTailRoundTrip | src/app/actions.ts:57 | The failure count can be read back from the optional " Failed M files." tail, and an empty tail means 0. |
| ZipIngest.SummaryRoundTrip | src/app/actions.ts:57 | Both counts can be read back from the summary message. |
| ZipIngest.SummaryMessageInjective | src/app/actions.ts:57 | Different pairs of counts never produce the same summary message. |
| Decimal.NatToString | src/app/actions.ts:57 | A count prints as a non-empty string of digits with no leading zero, beginning with '0' exactly for 0. |
| Decimal.ParseNatToString | src/app/actions.ts:57 | Parsing a printed count gives the count back. |
| Decimal.NatToStringParse | src/app/actions.ts:57 | Every canonical digit string is the printed form of its value. |
| Decimal.NatToStringInjective | src/app/actions.ts:57 | Different counts print differently. |
| Decimal.ReadCountOf | src/app/actions.ts:57 | A printed count followed by text that does not start with a digit is read back as that count and that text. |
| Text.LowerEqualsIffIgnoringCase | src/app/actions.ts:26 | Lower-casing a name gives a lower-case pattern iff the name equals the pattern ignoring case. |
| Text.JoinContains | src/app/actions.ts:52 | Each joined item occurs in the joined string. |
| Text.JoinLength | src/app/actions.ts:52 | The joined string is as long as the items plus one separator between each neighbouring pair. |
| SessionIdentity.GetOrCreateSessionId | src/lib/sessionUtils.ts:3-17 | Without a window it returns "" and touches nothing. With one it first reads the key. A stored non-empty id is returned and nothing is written. Otherwise the generated id is the one value written, under the key, and is returned. No other key changes. |
| SessionIdentity.Idempotent | src/lib/sessionUtils.ts:8-16 | A second call returns the first call's id, leaves storage as the first call left it, and writes nothing. |
| SessionIdentity.IdNonEmptyWithWindow | src/lib/sessionUtils.ts:9-16 | In a browser the returned id is never empty. |
| SessionIdentity.GeneratorUsedOnlyWhenMissing | src/lib/sessionUtils.ts:11-14 | Unless a browser lacks a stored id, the result does not depend on the generated id. |
| Text.Trim | src/components/ChatContainer.tsx:42-44 | The trimmed question is a contiguous part of the input. Only white space is removed on either side, and none remains at either end. |
| Text.TrimEmptyIff | src/components/ChatContainer.tsx:42 | The input trims to "" exactly when it is all white space, which is what the send guard rejects. |
| Text.TrimIdempotent | src/components/ChatContainer.tsx:44 | Trimming the question again changes nothing. |
| Text.TrimFixesUnpadded | src/components/ChatContainer.tsx:44 | A string without white space at either end trims to itself. |
| ChatSession.Send | src/components/ChatContainer.tsx:41-51 | Sending is refused exactly while loading or when the input is all white space, and a refusal changes nothing. An accepted send does four things: appends the question as a user message, where the question is exactly the trimmed input and is non-empty, clears the input, starts loading, and asks under the looked-up session id. |
| ChatSession.Reply | src/components/ChatContainer.tsx:51-62 | A reply appends exactly one AI message, the answer or the fixed apology, and stops loading. Earlier messages and the input are kept. |
| ChatSession.InitialWellFormed | src/components/ChatContainer.tsx:23-30 | The component starts with only the greeting, not loading, which is a well-formed transcript. |
| ChatSession.AppendPreserves | src/components/ChatContainer.tsx:46-59 | Appending a message of the other role keeps the transcript well formed. A user message must be non-empty and trimmed. Loading follows the new last role. |
| ChatSession.SendPreserves | src/components/ChatContainer.tsx:41-47 | Every send step keeps the transcript well formed. |
| ChatSession.ReplyPreserves | src/components/ChatContainer.tsx:49-62 | A reply to a pending question keeps the transcript well formed. |
| ChatSession.ApplyPreserves | src/components/ChatContainer.tsx:41-63 | Every allowed event keeps the transcript well formed and only appends to it. |
| ChatSession.RunPreserves | src/components/ChatContainer.tsx:23-63 | Over any run of allowed events the transcript stays well formed and no message is ever changed or removed. |
| ChatSession.SendThenReply | src/components/ChatContainer.tsx:41-62 | An accepted send and its reply add exactly the trimmed question and then the answer or apology. Afterwards the input is empty and loading is off. |
| ChatSession.NoSendWhileLoading | src/components/ChatContainer.tsx:42 | While loading, sending changes neither the state nor the storage and issues no request. |
| ChatSession.FailureKeepsQuestion | src/components/ChatContainer.tsx:54-59 | A failed chat call leaves the question in the transcript, followed by the apology. |

## Left out

- Decoding the archive (adm-zip) and reading the uploaded file are not modelled. An upload is given already decoded as `Archive(entries)`, or as `Corrupt(reason)` when decoding would throw. The decoder's error message is propagated unchanged.
- Whether an entry's data can be read is an input, the `Unreadable` outcome. It stands for any throw inside the `try` before the request: `getData`, or building the `Blob` and `File`.
- The backend requests (`ingestFile` and `chat` in src/lib/api.ts) are not modelled. api.ts is not part of this model. Each entry carries the outcome of its ingest request, and the chat reply is an input to `Reply`. The model records the requests issued but not their bodies or the file contents.
- An absent `sessionId` form field is modelled as the empty string. Both are falsy and are rejected the same way.
- ZipIngest.BaseName: takes the file name as the part of the entry path after the last '/', as the archive library reports it. That library's own code is not part of this model.
- Text.ToLower: lower-cases ASCII letters only, while `toLowerCase` maps every Unicode letter. Eligibility is still decided exactly as in the source. It compares against ".pdf" and ".txt", which contain neither "i" nor "k". Those are the only ASCII letters that a non-ASCII character lower-cases to: U+0130 gives "i" followed by U+0307, and U+212A gives "k".
- Strings are sequences of Unicode scalar values, not the UTF-16 code units of JavaScript. Lengths and positions are stated in those units.
- UUID generation is a parameter of `GetOrCreateSessionId`. Its randomness and uniqueness are not modelled. The lemmas that need it assume only that a generated id is non-empty.
- React's scheduling and the interleaving of overlapping sends are not modelled. `Send` and `Reply` are atomic steps, and a reply arrives only while a request is pending. `Reply` includes the `finally` block's reset of the loading flag.
- SessionIdentity.GetOrCreateSessionId: assumes local storage access never throws. `getItem` and `setItem` can throw, for example when storage is blocked or full, and the exception then leaves the function. This case is not modelled.
- ChatSession.Send: always issues the chat request once a send is accepted. In the source, a throwing session lookup inside the `try` sends no request, and only the apology is appended. `Reply` with `ChatFailed` gives the same transcript, but the model does not state that no request was sent.
- Logging to the console, scrolling and all rendering are not modelled.
- The rest of the front end is not part of this model: the data-management and settings dialogs, the page layout, message rendering and the service worker.

