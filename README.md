# Meeting notes summariser — a verified model

The system is a small Next.js application. One page keeps a list of meeting transcripts in memory. On that page the user can:

- add transcripts by hand or upload them from `.txt` files;
- edit and delete them;
- choose an instruction, either from a fixed table of modes or by typing one;
- ask for a summary;
- e-mail that summary to a comma-separated list of addresses.

Two request handlers serve the page:

- `api/summarize` builds a prompt and forwards it to a language-model completion service;
- `api/send-email` renders the summary as HTML and forwards it to an e-mail provider.

The model works like this:

- The page's state is the class `Store.TranscriptStore`. Every handler is a method on that class. Its invariant `Valid()` says "the active id is null or names a document in the list; ids are non-empty and distinct". `AddNew`, `UploadFiles`, `Update`, `Delete`, `SelectAt`, `ApplySummaryMode`, `SetInstruction`, `SetEmails` and `GenerateSummary` preserve it. `OnLoad` and `ReadOne`, the steps inside an upload, keep the ids distinct, and `UploadFiles` re-establishes the whole invariant at its end. `SendEmail` changes nothing.
- The pure computations inside the handlers are functions with lemmas. These are the list map/filter/find, the file-name rule, the recipient parsing and the e-mail body.
- The JavaScript string operations the application calls are modelled in `Text`: `trim`, `split(',')`, `replace` of the first occurrence of a literal (`replace('.txt', '')`), and the decimal rendering of a number inside a template literal. The global replace `summary.replace(/\n/g, '<br>')` of the e-mail route is modelled as `SendEmail.NewlinesToBr`. `Text` also defines two helpers the application does not call: `Join`, which states the round trip of `split` and builds example fields, and `IndexOf`, the search step inside `replace`.
- Each route handler is a pure function from the parsed JSON fields, the environment variables and the abstract outcome of the foreign call to an `Outcome`. An `Outcome` is the call that is made, if any, plus the HTTP response.
- `Flow` connects the page to the routes. A request the page sends is never refused as malformed by the summary route. It is refused by the e-mail route exactly when the address field yielded no address.

Modules, one per file:

- `wrappers.dfy`: `Option`.
- `text.dfy`: ECMAScript white space, `trim`, `split`, first-occurrence `replace`, decimal numerals, and the helpers `Join` and `IndexOf`.
- `http.dfy`: JSON values, JavaScript truthiness, responses and status codes.
- `documents.dfy`: the transcript record and the list operations of the page.
- `client.dfy`: the mode table, and the requests "generate summary" and "send e-mail" build.
- `store.dfy`: the page state as a class.
- `summarize.dfy` and `send_email.dfy`: the two route handlers.
- `flow.dfy`: page requests as the routes see them.

## Model

| member | source | states |
|---|---|---|
| Text.Trim | src/app/page.tsx:109 | the result is no longer than the input, and it neither starts nor ends with white space |
| Text.TrimPadded | src/app/page.tsx:109 | the trimmed text is the input with a white-space prefix and a white-space suffix cut off |
| Text.TrimOfPadded | src/app/page.tsx:114 | trimming a text padded with white space on both sides gives back the unpadded text |
| Text.TrimUnpadded | src/app/page.tsx:114 | trimming leaves a text alone exactly when it is empty or neither starts nor ends with white space |
| Text.TrimEmptyIff | src/app/page.tsx:109 | the trimmed text is empty exactly when the text is all white space (the falsy case of the guard) |
| Text.TrimChars | src/app/page.tsx:161 | trimming only removes characters; every character of the result comes from the input |
| Text.TrimIdempotent | src/app/page.tsx:161 | trimming twice gives the same text as trimming once |
| Text.Split | src/app/page.tsx:160 | `split(',')` gives one piece more than there are separators, and no piece contains the separator |
| Text.JoinSplit | src/app/page.tsx:160 | joining the pieces of a split with the separator gives back the text |
| Text.SplitJoin | src/app/page.tsx:160 | splitting separator-free pieces joined by the separator gives back the pieces |
| Text.SplitChars | src/app/page.tsx:160 | every character of every piece occurs in the split text |
| Text.SplitAppend | src/app/page.tsx:160 | a separator-free prefix becomes part of the first piece |
| Text.CountZero | src/app/page.tsx:160 | the separator count is zero exactly when the separator does not occur |
| Text.IndexOf | src/app/page.tsx:45 | the result is an occurrence of the pattern and no earlier position is one; no result means no occurrence at all |
| Text.RemoveFirst | src/app/page.tsx:45 | without an occurrence the text is unchanged; otherwise the first occurrence is cut out and everything around it is kept |
| Text.FirstOccurrence | src/app/page.tsx:45 | the search step of `replace` finds exactly the first occurrence |
| Text.Decimal | src/app/page.tsx:70 | the numeral is non-empty, made of digits, and has no leading zero unless the number is zero |
| Text.DecimalRoundTrip | src/app/page.tsx:70 | reading the numeral back gives the number |
| Http.Response.Status | src/app/api/send-email/route.ts:11-24 | a response is 200 exactly when it is a success, 400 exactly when it is a bad request and 500 exactly when it is a server error |
| Http.Truthy | src/app/api/send-email/route.ts:10-14 | JavaScript truthiness of a destructured field; no contract of its own; Http.FalsyValues states it |
| Http.FalsyValues | src/app/api/summarize/route.ts:12 | a field is falsy exactly when it is `undefined`, `null`, `false`, `0` or `""` |
| Documents.AppendKeepsValidIds | src/app/page.tsx:54 | appending a document with a fresh non-empty id keeps the ids distinct |
| Documents.NewMeeting | src/app/page.tsx:68-73 | the document "add new" creates; no contract of its own; Documents.NewMeetingShape states it |
| Documents.FileTitle | src/app/page.tsx:45 | `file.name.replace('.txt', '')`; no contract of its own; Documents.FileTitleDropsExtension, Documents.FileTitleKeepsRest, Documents.FileTitleOnlyFirst and Text.RemoveFirst state it |
| Documents.FromFile | src/app/page.tsx:47-52 | the document an uploaded file becomes; no contract of its own; Documents.FromFileShape states it |
| Documents.NewMeetingShape | src/app/page.tsx:67-73 | the new document is named "Meeting " followed by the decimal numeral of the old length plus one: all digits, no leading zero, and its value is the old length plus one; it has empty content, the listed category "Other" and no summary |
| Documents.FromFileShape | src/app/page.tsx:44-52 | an uploaded file's document has the given id, the file name with its first ".txt" cut out as name, the file's text as content, the listed category "Other" and no summary |
| Documents.FileTitleDropsExtension | src/app/page.tsx:45 | a name that is a stem followed by ".txt", with no other ".txt", loses exactly the extension |
| Documents.StandupFileTitle | src/app/page.tsx:45 | "standup.txt" becomes "standup" |
| Documents.FileTitleKeepsRest | src/app/page.tsx:45 | when the stem has no '.', only the ".txt" right after it is removed and everything after that is kept |
| Documents.FileTitleOnlyFirst | src/app/page.tsx:45 | only the first ".txt" is removed: "notes.txt.txt" becomes "notes.txt" |
| Documents.Merge | src/app/page.tsx:83 | the object spread `{ ...transcript, ...updates }`; no contract of its own; Documents.MergeFields and Documents.MergeLaws state it |
| Documents.MergeFields | src/app/page.tsx:83 | each field the patch sets takes the patch's value, every field it leaves unset keeps the old value, and the id is kept |
| Documents.MergeLaws | src/app/page.tsx:83 | merging a partial record keeps the id; the empty patch changes nothing; two merges are one merge of the combined patch; merging the same patch twice is merging it once |
| Documents.UpdateAll | src/app/page.tsx:79-87 | the length and order are kept; each document with the id gets the patch merged in and every other document is unchanged |
| Documents.UpdateKeepsIds | src/app/page.tsx:79-87 | an update changes no id, keeps the ids distinct and keeps whether an id is selected |
| Documents.UpdateAbsentIsNoOp | src/app/page.tsx:79-87 | updating an id that is not in the list changes nothing |
| Documents.UpdateOne | src/app/page.tsx:79-87 | with distinct ids, updating document k's id changes exactly position k |
| Documents.RemoveId | src/app/page.tsx:90 | the `filter` of a delete; no contract of its own; Documents.RemoveIdMembers and Documents.RemoveIdAppend state it, together pinning it down |
| Documents.RemoveIdMembers | src/app/page.tsx:90 | the list gets no longer, and a document survives exactly when it was in the list with another id |
| Documents.RemoveIdAppend | src/app/page.tsx:90 | the filter works piecewise over a concatenation, so relative order is kept |
| Documents.RemoveAbsentIsNoOp | src/app/page.tsx:90 | removing an id that is not in the list changes nothing |
| Documents.RemoveOne | src/app/page.tsx:90 | with distinct ids, removing document k's id leaves the documents before and after k, in order |
| Documents.RemoveAt | src/app/page.tsx:90 | when no other document has document k's id, removing that id cuts out exactly document k |
| Documents.RemoveKeepsValidIds | src/app/page.tsx:90 | removing keeps the ids distinct |
| Documents.NextActive | src/app/page.tsx:94-97 | the active id after a delete; no contract of its own; Documents.DeleteKeepsSelection and Store.TranscriptStore.Delete state it |
| Documents.DeleteKeepsSelection | src/app/page.tsx:89-98 | after a delete the new active id (the first remaining id, or null, when the active one was deleted) is null or names a remaining document |
| Documents.DeleteKeepsValid | src/app/page.tsx:89-98 | a delete preserves the whole-store invariant |
| Documents.Find | src/app/page.tsx:100 | a document is found exactly when the active id is set and occurs in the list; the one found has that id and is the first such document |
| Documents.FindUnique | src/app/page.tsx:100 | with distinct ids, looking up document k's id finds document k |
| Client.ModeInstruction | src/app/page.tsx:13-18 | the mode table; no contract of its own; Client.ModeInstructionTrimmed states it |
| Client.DefaultInstruction | src/app/page.tsx:25 | the initial instruction; no contract of its own; Client.DefaultInstructionTrimmed states it |
| Client.ModeInstructionTrimmed | src/app/page.tsx:13-18 | each mode's instruction is non-empty and unchanged by trimming, so it is sent as it stands |
| Client.DefaultInstructionTrimmed | src/app/page.tsx:25 | the default instruction is non-empty and unchanged by trimming |
| Client.InstructionToSend | src/app/page.tsx:115 | the trimmed instruction is sent, or the default instruction when it is blank; what is sent is never blank and is already trimmed |
| Client.SummaryRequest | src/app/page.tsx:109-128 | a request is made exactly when a document is active and its content is not blank; it carries the trimmed, non-empty content and the instruction to send |
| Client.SummaryChangesOnlyItsDocument | src/app/page.tsx:136 | storing the summary changes only the summary field of that one document |
| Client.SummaryPatch | src/app/page.tsx:136 | the update `{ summary: responseData.summary }`; no contract of its own; Client.SummaryChangesOnlyItsDocument states it |
| Client.NonEmpty | src/app/page.tsx:162 | `filter(e => e.length > 0)`; no contract of its own; Client.NonEmptyMembers and Client.NonEmptyAppend state it |
| Client.TrimEach | src/app/page.tsx:161 | `map(e => e.trim())`; no contract of its own; Client.TrimEachOf and Client.TrimEachAppend state it |
| Client.Recipients | src/app/page.tsx:159-162 | the parsing of the address field; no contract of its own; Client.RecipientsWellFormed and Client.RecipientsOfPieces state it |
| Client.NonEmptyMembers | src/app/page.tsx:162 | the empty-string filter keeps exactly the non-empty entries |
| Client.NonEmptyOfBlanks | src/app/page.tsx:162 | a list of empty strings filters to nothing |
| Client.NonEmptyKeepsAll | src/app/page.tsx:162 | a list without empty strings is kept as it is |
| Client.NonEmptyAppend | src/app/page.tsx:162 | filtering a concatenation filters each part and keeps their order |
| Client.TrimmedPieceAt | src/app/page.tsx:160-162 | every entry that survives the filter is one of the pieces, trimmed |
| Client.RecipientsWellFormed | src/app/page.tsx:159-162 | every recipient is non-empty, comma-free and trimmed, and is one of the comma-separated segments of the field, trimmed |
| Client.RecipientsClean | src/app/page.tsx:159-162 | every recipient is non-empty, comma-free and trimmed |
| Client.RecipientsOfPieces | src/app/page.tsx:159-162 | for a field of comma-free segments, blank ones included, the recipients are the segments trimmed, with the blank ones dropped, in order |
| Client.TrimEachAppend | src/app/page.tsx:161 | trimming each entry of a concatenation trims each part |
| Client.BlankPieceDropped | src/app/page.tsx:160-162 | a blank last segment adds no entry after trimming and filtering |
| Client.RecipientsTrailingComma | src/app/page.tsx:159-162 | a trailing comma adds no recipient: the field with "," appended has the recipients of the field |
| Client.RecipientsSkipBlankSegment | src/app/page.tsx:159-162 | an empty segment between two addresses is dropped: "a,,b" gives [a, b] |
| Client.RecipientsOfList | src/app/page.tsx:159-162 | addresses joined by commas, each possibly padded with white space, come back as the addresses, in input order |
| Client.RecipientsOfEmpty | src/app/page.tsx:159-162 | the empty field has no recipient |
| Client.TrimEachOf | src/app/page.tsx:161 | trimming each entry gives the trimmed entries, position by position |
| Client.RecipientsCommaSpace | src/app/page.tsx:152-162 | "a, b" with trimmed comma-free a and b gives the recipients [a, b] |
| Client.RecipientsOfCommas | src/app/page.tsx:159-162 | a field of commas and white space yields no recipient |
| Client.EmailBody | src/app/page.tsx:165 | the body is the name, then " (", the category, ")" and two newlines, then the trimmed summary; its length is the sum of those parts |
| Client.EmailRequest | src/app/page.tsx:147-165 | a request is made exactly when a document is active and its summary is set and not blank, and the address field is not blank; it carries the body and the recipients of the trimmed field |
| Client.CommaFieldHasNoRecipient | src/app/page.tsx:152-162 | a field of commas and white space with at least one comma passes the blank check but has no recipient |
| Client.CommaFieldPassesGuard | src/app/page.tsx:147-178 | for such a field the page still sends a request, with an empty recipient list |
| Store.UploadedFromFiles | src/app/page.tsx:40-54 | every document an upload adds comes from a plain-text file of the batch, and there are no more documents than files |
| Store.Uploaded | src/app/page.tsx:40-54 | the documents a batch of finished reads appends; no contract of its own; Store.UploadedFromFiles and Store.UploadedStep state it |
| Store.SelectedAfterUpload | src/app/page.tsx:56-59 | the active id a batch of reads leaves; no contract of its own; Store.UploadStepState and Store.SelectionSurvivesUpload state it |
| Store.UploadedStep | src/app/page.tsx:41-54 | one more finished read appends that file's document, and nothing unless the file is plain text |
| Store.IsPlainText | src/app/page.tsx:41 | `file.type === 'text/plain'`; no contract of its own; Store.UploadedStep and Store.UploadedFromFiles state what it selects |
| Store.UploadStepState | src/app/page.tsx:54-59 | the list and active id left by one more read: its document is appended, and the active id becomes its id only when none was active at the upload |
| Store.FreshAfterReads | src/app/page.tsx:48 | with fresh generated ids, each read's id is absent from the list as the earlier reads left it |
| Store.SelectionSurvivesUpload | src/app/page.tsx:54-59 | appending documents keeps the selection valid when the active id stays or becomes the last added id |
| Store.TranscriptStore.constructor | src/app/page.tsx:23-29 | the initial state is an empty list, no active id, the default instruction, an empty address field and no mode |
| Store.TranscriptStore.Active | src/app/page.tsx:100 | in a valid state a document is active exactly when the active id is set; it is the listed document with that id |
| Store.TranscriptStore.AddNew | src/app/page.tsx:66-77 | exactly one new document is appended and the earlier ones are unchanged; it becomes the active document; the invariant holds |
| Store.TranscriptStore.OnLoad | src/app/page.tsx:43-59 | one read appends the file's document; it becomes active only if no id was active when the upload started |
| Store.TranscriptStore.ReadOne | src/app/page.tsx:43-59 | one step of an upload batch: the list and active id after read i are those of reads 0 to i; the ids stay distinct |
| Store.TranscriptStore.UploadFiles | src/app/page.tsx:36-64 | the list becomes the old list followed by the documents of the plain-text files, in read order; the active id is kept if one was set, else it becomes the last added one; the invariant holds |
| Store.TranscriptStore.Update | src/app/page.tsx:79-87 | the list becomes the patched list, nothing else changes, and the invariant holds |
| Store.TranscriptStore.Delete | src/app/page.tsx:89-98 | the list loses every document with the id; the active id moves to the first remaining document (or null) only when the deleted id was active; the invariant holds |
| Store.TranscriptStore.SelectAt | src/app/page.tsx:243 | selecting a listed document makes it the active one and changes nothing else |
| Store.TranscriptStore.ApplySummaryMode | src/app/page.tsx:102-106 | the instruction becomes the mode's table entry and the mode is recorded; the list and active id are untouched |
| Store.TranscriptStore.SetInstruction | src/app/page.tsx:329 | only the instruction changes |
| Store.TranscriptStore.SetEmails | src/app/page.tsx:373 | only the address field changes |
| Store.TranscriptStore.GenerateSummary | src/app/page.tsx:108-144 | the request made is Client.SummaryRequest of the state; on a successful reply only the active document's summary changes, to the reply |
| Store.TranscriptStore.SendEmail | src/app/page.tsx:146-178 | the request made is Client.EmailRequest of the state, with non-empty, comma-free recipients; the state is unchanged |
| SendEmail.NewlinesToBr | src/app/api/send-email/route.ts:33 | no newline remains, and the text grows by exactly three characters per newline; SendEmail.NewlinesToBrLine and SendEmail.NewlinesToBrUnchanged pin it down |
| SendEmail.NewlinesToBrLine | src/app/api/send-email/route.ts:33 | each newline becomes `<br>`: the newline-free text before the first newline is kept, that newline is replaced by `<br>`, and the rest is rewritten the same way |
| SendEmail.NewlinesToBrAppend | src/app/api/send-email/route.ts:33 | the rewrite works piecewise over a concatenation |
| SendEmail.NewlinesToBrUnchanged | src/app/api/send-email/route.ts:33 | the text is unchanged exactly when it has no newline |
| SendEmail.Html | src/app/api/send-email/route.ts:30-39 | the `html` template literal; no contract of its own; SendEmail.HtmlEmbedsSummary states it |
| SendEmail.HtmlEmbedsSummary | src/app/api/send-email/route.ts:30-39 | the rewritten summary sits between the fixed head and tail and can be read back out; its length is the summary's plus three per newline plus the frame's; a summary without newlines is embedded as it stands |
| SendEmail.IsNonEmptyArray | src/app/api/send-email/route.ts:14 | the address list gets past the second check: it is present, an array and not empty; no contract of its own; SendEmail.EmailsCheckedSecond and SendEmail.Handle state it |
| SendEmail.ReachesProvider | src/app/api/send-email/route.ts:10-33 | the request gets past every early return and its summary is a string, so `.replace` exists; no contract of its own; SendEmail.Handle states it: the provider is called exactly then |
| Text.TruthyText | src/app/api/summarize/route.ts:16 | the `!x` test on a field or environment variable that is a string when present; no contract of its own; SendEmail.TruthyTextIsTruthy states it |
| SendEmail.TruthyTextIsTruthy | src/app/api/send-email/route.ts:18-24 | the string truthiness test is JavaScript truthiness of the string, and it fails exactly for an absent value or "" |
| SendEmail.Handle | src/app/api/send-email/route.ts:6-55 | the provider is called exactly when the input checks and the configuration checks pass, with the addresses and the rewritten HTML; 200 exactly when it delivered, with its message id; 400 exactly for a falsy summary or a missing, non-array or empty address list; a provider error or a throw gives 500 "Failed to send email"; in particular no body at all gives that 500, and so does a truthy summary that is not a string (its `.replace` throws) once the other checks pass |
| SendEmail.SummaryCheckedFirst | src/app/api/send-email/route.ts:10-12 | a falsy summary gives 400 "Summary is required" before anything else is looked at |
| SendEmail.EmailsCheckedSecond | src/app/api/send-email/route.ts:14-16 | with a summary, a missing, non-array or empty address list gives 400 "Email addresses are required" |
| SendEmail.ConfigurationCheckedAfterInput | src/app/api/send-email/route.ts:18-24 | after valid input, a missing API key gives its 500, and otherwise a missing sender gives its 500 |
| SendEmail.InputErrorsIgnoreEnvironment | src/app/api/send-email/route.ts:10-16 | the outcome of a 400 does not depend on the environment or the provider |
| SendEmail.ResponsesAreDocumented | src/app/api/send-email/route.ts:10-53 | every run ends in one of the five error bodies or the success body |
| Summarize.Prompt | src/app/api/summarize/route.ts:20-25 | the prompt is the instruction, the transcript header, the transcript verbatim and the closing directive, in that order and nothing else |
| Summarize.PromptRoundTrip | src/app/api/summarize/route.ts:20-25 | the transcript can be read back out of the prompt, so different transcripts give different prompts |
| Summarize.SummaryText | src/app/api/summarize/route.ts:39 | the summary is the first choice's content when that is non-empty, else "No summary generated"; it is never empty |
| Summarize.Handle | src/app/api/summarize/route.ts:8-49 | the completion is requested exactly when the transcript is truthy and the key is set, with the prompt; 400 "Transcript is required" exactly for a falsy transcript; 200 exactly when the completion returned, never with an empty summary; a failed call gives 500 "Failed to generate summary", and so does a request without a JSON body |
| Summarize.TranscriptCheckedFirst | src/app/api/summarize/route.ts:12-14 | a falsy transcript gives 400 before the key is looked at |
| Summarize.CredentialCheckedSecond | src/app/api/summarize/route.ts:16-18 | without a key, the answer is 500 "GROQ_API_KEY not configured" exactly when the transcript is truthy |
| Summarize.CompletedSummary | src/app/api/summarize/route.ts:39-41 | a completed call gives 200 with the summary text of its content |
| Flow.SummaryFields | src/app/page.tsx:125-128 | the JSON body the page sends to the summary route; no contract of its own; Flow.SummaryRequestAccepted states it |
| Flow.EmailFields | src/app/page.tsx:175-178 | the JSON body the page sends to the e-mail route; no contract of its own; Flow.EmailRequestAtRoute states it |
| Flow.ReplyOf | src/app/page.tsx:131-136 | the page stores a summary exactly when the response is a success, and it is the response's summary |
| Flow.SummaryRequestAccepted | src/app/page.tsx:114-136 | a request the page sends is never a 400 at the route; the prompt is built from the instruction the page chose and the trimmed content; the page gets a summary exactly when the key is set and the completion returned, and it is never empty |
| Flow.EmailRequestAtRoute | src/app/page.tsx:159-178 | a request the page sends is a 400 "Email addresses are required" exactly when it has no recipient; it reaches the provider exactly when it has recipients and the configuration is set; the provider then gets address k equal to the page's recipient k, for every k, and the HTML of the body |
| Flow.CommaFieldRefused | src/app/page.tsx:152-162 | a field such as "," passes the page's blank check, and the route refuses the request with 400 "Email addresses are required" |

## Left out

- Network I/O, and the run-time effects in the handlers:
  - the `fetch` calls and `alert` messages;
  - the `loading`/`emailLoading` flags;
  - `console.error`.

  A request is modelled by the call it would make. Its outcome is a parameter: `SummaryReply` on the page, `Completion` and `Delivery` at the routes.
- Id generation from the clock and a random number. Ids are parameters, and a precondition requires them to be non-empty and not already in the list.
- Asynchronous file reading. The reads finish in the order of the `us` parameter of `Store.TranscriptStore.UploadFiles`. Each read's callback sees the active id as it was when the upload started, which is the closure the code captures. A read that fails is not modelled, and neither is the `files` null check, since the upload handler then does nothing.
- Interleaving of a pending summary request with other edits. `Store.TranscriptStore.GenerateSummary` models the request and its reply as one step.
- Construction of the SDK clients at module load.
- Also left out: the completion call's model name, `temperature` (a floating-point value) and `max_tokens`: they are configuration passed through, and the service's behaviour is the `Completion` parameter.
- Non-string JSON values for `transcript` in the summarize handler. Their template interpolation depends on JavaScript number and object formatting. The instruction is modelled as a string, as the page always sends one.
- The `id` field of a partial update. No caller of `updateTranscript` passes one, so `Documents.Patch` leaves it out; this is what keeps ids stable under updates.
- Selection by click is `Store.TranscriptStore.SelectAt`: it picks the k-th rendered document.
- All JSX rendering, styling, and `src/app/layout.tsx`. These hold no logic beyond binding the handlers.
- HTML escaping and e-mail address validity. The code does neither.
- JavaScript strings are sequences of UTF-16 code units; Dafny's `string` is a sequence of Unicode scalar values. A lone surrogate cannot be represented here, and `length` and indices count characters, where JavaScript counts code units for characters outside the Basic Multilingual Plane.
