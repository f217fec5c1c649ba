# Work-order pipeline, modelled in Dafny

The system turns work-order PDFs into Monday.com board items and keeps a
local record of them. It has two halves.

- **The batch pipeline** (`src/`):
  1. It fetches the PDF attachments of "Work Order" e-mails, newest message first, up to a limit.
  2. It extracts six fields from each PDF's text: project, pm, wo, po, state and notes.
  3. It normalises the record and posts a `create_item` mutation on the older board mapping.
  4. It deletes the temporary file.
  5. An earlier version (`mondayApi.js`) handles only the first PDF of the newest unseen message, and reads notes with a third pattern.
- **The server** (`server/`, `client/src/pages/Signup.jsx`):
  - Registration validates the e-mail and password and stores users under a unique e-mail.
  - Login gives the same error for an unknown e-mail and a wrong password; a database error keeps its own message.
  - Work orders are created from a form or from an uploaded PDF. Monday.com is always called first, and the `workorders` table is touched only after an accepted call.
  - Work orders are listed and read per owner.
  - The sign-up page repeats the server's checks in the browser.

The model is split into modules:

- **Values and text**
  - `Js`: JavaScript strings and `undefined`, truthiness, `||`, template rendering and objects.
  - `Text`: `trim`, `includes`, `toLowerCase`, `join`, `split('T')[0]` and UTF-16 `length`.
- **Regular expressions**
  - `Patterns` holds a hand-written scanner for each regular expression.
  - Each scanner is paired with a predicate saying when the expression matches at a position.
  - Each scanner is proved sound and complete against that predicate.
  - Each scanner is proved to follow the expression's greedy or lazy choice.
  - `Exec` is leftmost-match search.
- **Extraction**
  - `Extraction` holds the field rules shared by the three copies of `extractDataFromPDF`.
  - `PdfService`, `PdfExtractor` and `MondayApi` are the three copies.
- **Outside world**
  - `World` holds file paths, board columns, requests and replies, and the effects a run performs: writes, deletions, posts and inserts.
  - `After` gives the files left on disk after a trace.
- **Batch pipeline**
  - `Mailbox`: messages, and the in-place sort on an array.
  - `EmailService`: `fetchPDFAttachments` as nested loops.
  - `Formatter`: `formatWorkOrderData`.
  - `BatchMain`: the loop of `src/index.js`.
  - `MondayApi`: `fetchEmailsAndProcess`, `mapStatus` and the older `sendToMonday`.
- **Server**
  - `MondayService`: the server's `sendToMonday`, including the column map built in place and the reply checks.
  - `WorkOrderRoutes`: the four handlers over a `WorkOrderTable` class.
  - `AuthService`: validation, and the `UserTable` class with register and login.
  - `Signup`: the page's checks.

**Imperative code.** Code that changes state in the source is modelled as methods with loops and frames:

- the array sort;
- the attachment loops with their counter and `break`s;
- the batch loop;
- the column map;
- the two tables.

Each such method is either proved equal to a specification function, or its contract gives its full new state and result case by case (`UserTable.Register`). The properties are proved about those functions and contracts.

**External parameters.** Anything outside the model is passed in:

- pdf-parse is a function from bytes to text or an error;
- `new Date(d).toISOString()` is a partial function;
- the clock values are numbers;
- the Monday.com reply is a datatype;
- bcrypt and JWT are functions;
- a database failure is an optional error.

## Model

| member | source | states |
|---|---|---|
| PdfService.ExtractDataFromPdf | server/services/pdf.service.js:9-42 | every text gives six string fields; project and notes are trimmed; pm is trimmed and has no newline; wo and po are "" or all digits; state is "" or two uppercase letters; notes holds no blank line |
| PdfService.NothingFound | server/services/pdf.service.js:9-42 | a text in which none of the labels or the state pattern occurs gives six empty fields |
| PdfExtractor.ExtractDataFromPdf | src/pdf/pdfExtractor.js:11-57 | the same shape guarantees for the batch extractor |
| PdfExtractor.SameAsServer | src/pdf/pdfExtractor.js:11-48 | the batch extractor and the server extractor return the same record for every text |
| Extraction.ToObject | src/pdf/pdfExtractor.js:50-57 | the returned object has exactly the keys project, pm, wo, po, state, notes, all strings; no status, date or address |
| Extraction.ProjectRule | server/services/pdf.service.js:9-16 | when an address block matches, project is "Oneway " plus the three trimmed lines of the leftmost block, and it ends in a digit; only otherwise is the leftmost "WO/PO" line used, trimmed; "" when neither matches; never a line break outside the block form |
| Extraction.BlockHitExact | server/services/pdf.service.js:10 | the block search finds a match exactly when the block pattern matches somewhere, and finds the leftmost one |
| Extraction.LineHitExact | server/services/pdf.service.js:14 | the same for the "WO/PO <name>, WO" pattern |
| Extraction.ProjectFromBlock | server/services/pdf.service.js:11-12 | a project from the block starts with "Oneway ", ends in a digit and is trimmed |
| Extraction.ProjectFromLine | server/services/pdf.service.js:14-15 | a project from the "WO/PO" line is trimmed and holds no line terminator |
| Extraction.FirstHit | server/services/pdf.service.js:35 | a chain of alternative patterns returns the first rule's match that exists, and none only when every rule fails |
| Extraction.FirstHitAppend | src/monday/mondayApi.js:90-93 | adding patterns at the end of a chain changes the result only where every earlier pattern failed |
| Extraction.DigitsFind | server/services/pdf.service.js:19-20 | the match at the leftmost label followed by optional spaces and enough digits (case-insensitive label, a minimum digit count), capturing the whole digit run; none exactly when the pattern matches nowhere |
| Extraction.TwoTier | server/services/pdf.service.js:18-28 | the labelled pattern wins; the fallback is used only when the labelled one finds nothing; "" only when both fail |
| Extraction.WoRule | server/services/pdf.service.js:18-22 | wo is "" or digits; "K3D Work Order:" wins; the bare "WO" form needs six digits or more; wo is "" exactly when neither pattern matches |
| Extraction.PoRule | server/services/pdf.service.js:24-28 | the same for po with "P.O. #:" and the bare "PO" form |
| Extraction.StateOf | server/services/pdf.service.js:30-32 | state is "" or two uppercase ASCII letters |
| Extraction.StateRule | server/services/pdf.service.js:30-32 | state is the letter pair of the leftmost case-sensitive `[A-Z]{2}\s*\d{5}` match, and "" exactly when there is none |
| Extraction.NotesFind | server/services/pdf.service.js:35 | the leftmost match of a notes pattern; for "until a blank line" the group holds no blank line and starts on whitespace only when no blank line follows (the greedy `\s*`); none exactly when the pattern matches nowhere |
| Extraction.NotesOf | server/services/pdf.service.js:34-36 | notes is always trimmed |
| Extraction.NotesChain | server/services/pdf.service.js:34-36 | the Remarks group wins when that pattern matches; Instructions is tried only when it fails; notes holds no blank line; "" when neither label is followed by a blank line |
| Extraction.NotesNoBlank | server/services/pdf.service.js:35-36 | notes found by patterns that stop at a blank line never contain one |
| Extraction.PmOf | server/services/pdf.service.js:38-40 | pm is trimmed and holds no newline |
| Extraction.PmRule | server/services/pdf.service.js:38-40 | pm is the trimmed text from the first non-space character after the leftmost "Ordered By:" (any case) to the end of that line, which may be a later line; "" when that label is absent |
| Extraction.GroupText | server/services/pdf.service.js:21 | a captured group's text after `trim()` is trimmed |
| Extraction.GroupTextExact | server/services/pdf.service.js:21-22 | trimming a digit group leaves it unchanged |
| Patterns.Exec | server/services/pdf.service.js:10 | `exec` reports the leftmost position at which the pattern matches, and nothing only when it matches at no position |
| Patterns.Leftmost | server/services/pdf.service.js:10 | the first position in a range at which a matcher succeeds |
| Patterns.LabelledDigitsAt | server/services/pdf.service.js:19-20 | the digits matcher at one position is sound and complete for its pattern, and its greedy digit run stops before a non-digit |
| Patterns.StateAt | server/services/pdf.service.js:31 | the state matcher at one position is sound and complete, capturing exactly two letters |
| Patterns.RestOfLineAt | server/services/pdf.service.js:39 | the pm matcher succeeds exactly where the label occurs, and its group runs to the end of the line |
| Patterns.UntilBlankAt | server/services/pdf.service.js:35 | the notes matcher is sound and complete, its lazy group stops at the first blank line, and it holds none |
| Patterns.ToEndAt | src/monday/mondayApi.js:93 | the e-mail notes matcher succeeds exactly where the label occurs, and takes the rest of the text |
| Patterns.ProjectLineAt | server/services/pdf.service.js:14 | the "WO/PO" matcher is sound and complete; its lazy group ends at the first ", WO"; its greedy `\s+` takes the longest run that still matches |
| Patterns.BlockAt | server/services/pdf.service.js:10 | the block matcher is sound; its greedy third line ends at the last ", XX 99999" on that line; its greedy `\s+` is the longest that still matches |
| Patterns.BlockAtComplete | server/services/pdf.service.js:10 | whenever the block pattern can match at a position, the matcher finds a match there |
| Patterns.EmailMatchesExactly | server/services/auth.service.js:12-13 | the e-mail check accepts exactly the strings `^[^\s@]+@[^\s@]+\.[^\s@]+$` matches |
| MondayApi.ExtractDataFromPdf | src/monday/mondayApi.js:53-109 | the first version's extractor gives the same field shapes |
| MondayApi.NotesFallback | src/monday/mondayApi.js:88-94 | every field but notes equals the batch extractor's; notes equals it too when Remarks or Instructions matches; otherwise notes is the trimmed text after the leftmost "Message Received in the email:", or "" without that label |
| MondayApi.EmailNotes | src/monday/mondayApi.js:93-94 | the third notes pattern alone takes the trimmed text after its leftmost label, across newlines |
| MondayApi.MapStatus | src/monday/mondayApi.js:111-117 | the result is one of "Working on it", "Done" and "Stuck", and "Working on it" for a missing or empty status |
| MondayApi.MapStatusCases | src/monday/mondayApi.js:114-115 | "Done" exactly when the lower-cased status contains "done"; "Stuck" exactly when it contains "stuck" but not "done" |
| MondayApi.MapStatusIgnoresCase | src/monday/mondayApi.js:114-115 | lower-casing the status first changes nothing |
| MondayApi.LegacyOutcome | src/monday/mondayApi.js:138-144 | the older send fails only when the POST itself is rejected, with that error |
| MondayApi.LegacyIgnoresErrors | src/monday/mondayApi.js:138-144 | every reply the server's checked send accepts, the older send accepts; the older send also accepts replies with errors or a null `create_item`, which the checked send rejects |
| MondayApi.LegacyOfRecord | src/monday/mondayApi.js:127-136 | for an extracted record the five columns project, wo, po, state and notes are each sent with their field; the item is named after the project, or "Work Order" |
| MondayApi.FirstPdf | src/monday/mondayApi.js:39-46 | the first attachment whose type is exactly "application/pdf", or none when no attachment is a PDF |
| MondayApi.FetchEmailsAndProcess | src/monday/mondayApi.js:19-49 | sorting the messages in place and scanning the first message's attachments gives the effects and outcome of `ProcessLatest` on the sorted list |
| MondayApi.ProcessAttachment | src/monday/mondayApi.js:41-45 | write, parse, post and delete one PDF, ending at the first error |
| MondayApi.OnlyLatest | src/monday/mondayApi.js:27-49 | nothing happens without unseen messages; otherwise only a message at least as new as every other is looked at, and the file written holds its first PDF |
| MondayApi.CleanupAfterPost | src/monday/mondayApi.js:41-45 | the file is written first, and deleted exactly when parsing and posting succeed, right after the post |
| MondayApi.FileLeftOnFailure | src/monday/mondayApi.js:41-45 | a parse or post failure leaves the temporary file on disk, with no deletion |
| MondayService.BuildColumnValues | server/services/monday.service.js:14-39 | building the column object key by key gives exactly the column map the columns' rules describe |
| MondayService.SentExactly | server/services/monday.service.js:14-39 | a column is in the map exactly when it is sent, with the value its rule gives |
| MondayService.ColumnsSent | server/services/monday.service.js:14-39 | the four base columns are always present, each with its field or ""; the dropdown, status and date are present exactly when their field is non-blank after trimming, and each carries its field untrimmed; no other key appears |
| MondayService.NoBlankTypedColumn | server/services/monday.service.js:27-39 | no dropdown, status or date column is ever sent blank |
| MondayService.CheckReply | server/services/monday.service.js:55-65 | the reply is accepted exactly when it has no errors and a non-null `create_item`; a rejected POST keeps its message; errors give "Monday.com API error: " and the joined messages; otherwise the null-item error |
| MondayService.ErrorsCheckedFirst | server/services/monday.service.js:55-63 | a non-empty error list decides the outcome, whatever `data` holds |
| MondayService.SendToMonday | server/services/monday.service.js:4-66 | the request is the item name and the column map of the record, and the result is the checked reply |
| MondayService.ExtractedColumns | server/services/monday.service.js:14-39 | for an extracted record the base columns hold the fields, the dropdown is sent exactly when a state was found, and no status or date is sent |
| MondayService.RecordFields | server/services/monday.service.js:14-39 | an extracted record, read as an object, has its six string fields and no status or date |
| MondayService.ColumnsOfRecord | server/services/monday.service.js:14-39 | the column map of any object holding an extracted record's fields |
| MondayService.ExtractedItemName | server/services/monday.service.js:42 | the item name is the project, or "Work Order" when none was found, then " - WO#" and the wo number |
| Mailbox.SortNewestFirstSpec | src/email/emailService.js:27-31 | the sort orders messages newest first and keeps every message |
| Mailbox.FirstIsLatest | src/monday/mondayApi.js:27-35 | after sorting, the first message is at least as new as every message |
| Mailbox.InsertByDateAt | src/email/emailService.js:27-31 | inserting at the position where the in-place shift stops is the specified insertion |
| Mailbox.SortByDate | src/email/emailService.js:27-31 | the in-place insertion sort leaves the array equal to the specified newest-first sort of its old contents |
| Mailbox.InsertNext | src/email/emailService.js:27-31 | one step of the sort inserts the next message into the sorted prefix and leaves the rest alone |
| Mailbox.ShiftOlder | src/email/emailService.js:27-31 | shifting moves exactly the prefix messages older than the one being placed up by one place |
| EmailService.Cap | src/email/emailService.js:36-48 | at most `limit` are returned, none for a limit of zero or less, and all available ones when fewer exist |
| EmailService.NumberedPaths | src/email/emailService.js:44-47 | one path per returned file, pairwise distinct |
| EmailService.QualifyingFrom | src/email/emailService.js:40-43 | every PDF that can be returned is an "application/pdf" attachment of a message whose subject contains "Work Order" |
| EmailService.FetchPdfAttachments | src/email/emailService.js:19-55 | the files written are the first `limit` qualifying PDFs (default 1), in newest-message-first and attachment order, each written once under its own numbered path |
| EmailService.VisitMessage | src/email/emailService.js:35-50 | a message whose subject is missing or lacks "Work Order" is skipped; otherwise its PDFs are written |
| EmailService.WritePdfs | src/email/emailService.js:42-49 | a message's PDFs are written after those already written, stopping as soon as the limit is reached |
| EmailService.CapOfPrefix | src/email/emailService.js:36-48 | once the limit is reached, later PDFs change nothing |
| EmailService.PdfsPrefix | src/email/emailService.js:42-49 | the PDFs of the first attachments come first in a message's PDFs |
| EmailService.QualifyingPrefix | src/email/emailService.js:35-50 | the PDFs of the first messages come first in the list of qualifying PDFs |
| Formatter.FormatWorkOrderData | src/utils/formatter.js:1-8 | every key other than address and date is kept; address is trimmed; date has no time part; an unparseable date throws "Invalid time value" and nothing else throws |
| Formatter.FormattedValues | src/utils/formatter.js:5-6 | address is the trimmed original or "" when it is missing or empty; date is the ISO form up to its first 'T', or "" without a date |
| Formatter.FormatIdempotent | src/utils/formatter.js:1-8 | formatting a formatted record again changes nothing, provided its day reads back as the same day |
| BatchMain.RunBatch | src/index.js:7-17 | fetching three PDFs and running the loop gives the paths, the effects in order and the outcome `Run` specifies |
| BatchMain.DeliverAll | src/index.js:10-16 | the loop processes the fetched files in order, each through extract, format, send and delete, and stops at the first error |
| BatchMain.ProcessFile | src/index.js:11-15 | one iteration handles one file |
| BatchMain.PrepareFile | src/index.js:11-13 | the request for one file is its parsed, extracted and formatted record, or the error of one of those steps |
| BatchMain.DeliverFile | src/index.js:14-15 | send, then delete, with the delete skipped when the send throws |
| BatchMain.BatchStep | src/index.js:10-16 | one turn of the loop, as the run specifies it |
| BatchMain.AtMostThree | src/index.js:8 | at most three files are fetched, and fewer only when fewer qualifying PDFs exist |
| BatchMain.OnlyParseFails | src/index.js:11-13 | an extracted record always formats, so a file fails before sending only when pdf-parse fails; the record sent is the extracted fields |
| BatchMain.FormattedRecord | src/utils/formatter.js:1-8 | formatting an extracted record adds address "" and date "" and changes nothing that is sent |
| BatchMain.UnlinkFollowsPost | src/index.js:14-15 | a file is deleted only right after its post, and only when the post was not rejected |
| BatchMain.DeliverFiles | src/index.js:14-15 | delivering one file touches no other path |
| BatchMain.BatchFiles | src/index.js:10-16 | delivered files are gone; when a file fails, it and every later file stay; no other path is touched |
| BatchMain.AfterWrites | src/email/emailService.js:44-46 | writing the fetched files puts each of them on disk |
| BatchMain.RunFiles | src/index.js:7-19 | after a completed run none of the fetched files remains; after a failed run the files before the failing one are gone, and it and all later ones remain |
| World.AfterAppend | src/index.js:10-16 | effects compose: running two traces in turn is running their concatenation |
| World.AfterUntouched | src/index.js:10-16 | a path none of the effects touches is on disk afterwards exactly when it was before |
| WorkOrderRoutes.OwnedByExactly | server/routes/workorder.routes.js:41-43 | `WHERE user_id = ?` keeps exactly the caller's rows |
| WorkOrderRoutes.WorkOrderTable.Insert | server/routes/workorder.routes.js:78-80 | the INSERT appends one row under the next id and advances the counter, keeping ids positive and increasing |
| WorkOrderRoutes.WorkOrderTable.ListByOwner | server/routes/workorder.routes.js:41-43 | the result is newest first by creation time and holds exactly the caller's rows |
| WorkOrderRoutes.WorkOrderTable.GetById | server/routes/workorder.routes.js:141-143 | a row is returned only when both its id and its owner match, and none only when no row does |
| WorkOrderRoutes.InsertByTime | server/routes/workorder.routes.js:42 | placing a row in a newest-first list keeps it newest first and adds exactly that row |
| WorkOrderRoutes.IdsUnique | server/routes/workorder.routes.js:141-143 | in a valid table two rows with the same id are the same row |
| WorkOrderRoutes.Submitted | server/routes/workorder.routes.js:56-62 | the work-order data is exactly the eight named fields read from the body |
| WorkOrderRoutes.Appended | server/routes/workorder.routes.js:78-80 | appending a row under the next id keeps the table's ids valid |
| WorkOrderRoutes.CreateWorkOrder | server/routes/workorder.routes.js:54-95 | the handler's response, effects and new table are those `Create` specifies |
| WorkOrderRoutes.SubmitForm | server/routes/workorder.routes.js:62-91 | Monday.com is called first; a failure answers 500 with "Failed to send to Monday.com: " and the message or "Unknown error"; an insert error answers 500; otherwise a 201 with the new id |
| WorkOrderRoutes.CreateValidatesFirst | server/routes/workorder.routes.js:58-60 | 400 exactly when project or wo is falsy, with no Monday.com call, no insert and the table unchanged |
| WorkOrderRoutes.CreateSyncsBeforeSaving | server/routes/workorder.routes.js:64-91 | the first effect is the Monday.com post; a failed post answers 500 and leaves the table unchanged; the table changes exactly on 201; a 201 follows an accepted call and appends the submitted fields under the caller and the next id |
| WorkOrderRoutes.UploadWorkOrder | server/routes/workorder.routes.js:98-135 | the upload handler's response, effects and new table are those `FromUpload` specifies for the parsed file; no file answers 400 |
| WorkOrderRoutes.ParseUpload | server/routes/workorder.routes.js:107 | the record is pdf-parse's error or the server extraction of the text |
| WorkOrderRoutes.SaveUpload | server/routes/workorder.routes.js:107-131 | an extraction error or Monday.com error answers 500; otherwise the record is inserted and the file deleted, and 201 is returned |
| WorkOrderRoutes.UploadRefusedFirst | server/routes/workorder.routes.js:28-34 | a missing or non-PDF file is refused with nothing written, sent or stored: 400 without a file, 500 "Only PDF files are allowed" for another type |
| WorkOrderRoutes.UploadFileLeftOnFailure | server/routes/workorder.routes.js:104-131 | the stored PDF is written first and deleted exactly when the upload succeeds; a 201 is exactly a changed table; every failure is a 500 that leaves the file on disk |
| WorkOrderRoutes.UploadStoresWhateverWasFound | server/routes/workorder.routes.js:107-116 | the upload does not check project or wo: with an accepted call the extracted record is stored as is, without status or date |
| WorkOrderRoutes.EmptyPdfStillStored | server/routes/workorder.routes.js:107-116 | a PDF with no text still creates a row, with empty project and wo |
| WorkOrderRoutes.ListWorkOrders | server/routes/workorder.routes.js:38-51 | 500 with the database error, or 200 with exactly the caller's rows, newest first |
| WorkOrderRoutes.ListedAreOwned | server/routes/workorder.routes.js:41-48 | a row is listed exactly when it belongs to the caller |
| WorkOrderRoutes.GetWorkOrder | server/routes/workorder.routes.js:138-154 | 500 with the database error; 404 exactly when no row has both the id and the caller as owner; a 200 carries such a row, never another user's |
| AuthService.HasSome | server/services/auth.service.js:20-26 | an unanchored one-character class test holds exactly when some character is in the class |
| AuthService.FirstBroken | server/services/auth.service.js:17-28 | no broken rule exactly when the password is strong; otherwise the first rule, in the order length, uppercase, digit, special, that fails |
| AuthService.Validate | server/services/auth.service.js:12-28 | no error exactly when the e-mail matches and all four password rules hold; a bad e-mail gives "Invalid email format"; otherwise the message of the first failed password rule |
| AuthService.MessagesDistinct | server/services/auth.service.js:14-27 | each error message names one cause |
| AuthService.Lookup | server/services/auth.service.js:58 | the row with that e-mail, or none exactly when no row has it |
| AuthService.LoginOutcome | server/services/auth.service.js:60-76 | success exactly when the user exists and the password matches the hash, yielding the signed token and id, e-mail and name without the hash; every failure is "Invalid email or password" |
| AuthService.LoginDoesNotRevealAccounts | server/services/auth.service.js:60-65 | an unknown e-mail and a wrong password give the same error |
| AuthService.VerifyToken | server/services/auth.service.js:81-87 | the claims when the token verifies, and "Invalid or expired token" otherwise |
| AuthService.UserTable.Register | server/services/auth.service.js:9-52 | a validation error comes first and changes nothing; a registered e-mail gives "Email already registered" and changes nothing; other database errors pass through; success exactly otherwise, appending one user with the hash and returning id, e-mail and name |
| AuthService.UserTable.Login | server/services/auth.service.js:54-79 | a database error passes through; otherwise the login outcome for the looked-up row |
| AuthService.UserTable.FindByEmail | server/services/auth.service.js:58 | scanning the table finds the row the lookup specifies |
| AuthService.RegisterThenLogin | server/services/auth.service.js:33-76 | after a registration, logging in with the same password yields the registered account, and e-mails stay unique |
| Signup.ValidateEmail | client/src/pages/Signup.jsx:16-19 | the page accepts exactly the e-mails the server's pattern accepts |
| Signup.Broken | client/src/pages/Signup.jsx:21-27 | exactly the rules the password breaks, in checking order |
| Signup.Position | client/src/pages/Signup.jsx:23-26 | each rule's place in the checking order |
| Signup.ValidatePassword | client/src/pages/Signup.jsx:21-28 | one hint per broken rule, in the order length, uppercase, number, special; no hint exactly when all four server rules hold |
| Signup.PushUnless | client/src/pages/Signup.jsx:23-26 | a hint is pushed exactly when its rule fails |
| Signup.LabelsAppend | client/src/pages/Signup.jsx:21-27 | the hints of two rule lists are the hints of each, in order |
| Signup.FirstHintIsServerError | client/src/pages/Signup.jsx:21-27 | the page shows no hint exactly when the server finds no broken rule, and its first hint is for the rule the server reports |
| Signup.FormErrors | client/src/pages/Signup.jsx:60-74 | each field has an error exactly when it is missing or invalid: name when empty; e-mail when it fails the pattern; password when a rule fails, with the joined hints; confirmation when empty or different |
| Signup.EmptyIsWeak | client/src/pages/Signup.jsx:62-65 | an empty e-mail or password also fails the pattern and the rules |
| Signup.Submit | client/src/pages/Signup.jsx:76-91 | nothing is sent exactly when there is an error; the body carries name, e-mail and password and never the confirmation; a sent form passes the server's validation |
| Signup.PageAgreesWithServer | client/src/pages/Signup.jsx:60-69 | the server's validation passes exactly when the page shows no e-mail and no password error |
| Text.Trim | server/services/pdf.service.js:12 | `trim()` returns a trimmed slice no longer than its input |
| Text.TrimTrimmed | src/utils/formatter.js:5 | trimming a trimmed string changes nothing |
| Text.Includes | src/email/emailService.js:40 | `includes` holds exactly when the substring occurs somewhere |
| Text.ToLower | src/monday/mondayApi.js:114-115 | `toLowerCase` lower-cases A-Z and the Kelvin sign, one character each, and leaves no uppercase ASCII letter |
| Text.BeforeFirst | src/utils/formatter.js:6 | `split('T')[0]` is the prefix before the first 'T', or the whole string |
| Text.Utf16Length | server/services/auth.service.js:17 | `length` counts UTF-16 code units, one or two per character, so it lies between the character count and twice that |
| Js.Or | server/services/monday.service.js:16-22 | the `or` default is the string when it is non-empty and the default otherwise |

## Left out

- IMAP (`imaps.connect`, `search`, `openBox`, `connection.end`) and `simpleParser` are outside the model. A mailbox is a sequence of messages with a date, a subject and attachments, and `item.parts.find` is assumed to find the body.
- pdf-parse and `fs.readFileSync` are a parameter from bytes to text or an error. The bytes read back are the bytes written.
- The network is left out: `axios.post`, the GraphQL query text, the board id and `JSON.stringify` of the column map. The request is the item name and a map from columns to values, and the reply is a datatype.
- `Date.now()` is a number supplied by the caller: the file stamps, and `created_at` (SQLite's CURRENT_TIMESTAMP). `new Date(d).toISOString()` is a partial function supplied by the caller.
- bcrypt and JWT are functions supplied by the caller: `bcrypt.hash` gives the `hashed` argument, `bcrypt.compare` is `compare`, and `jwt.sign`/`jwt.verify` are `sign`/`verify`. The 24-hour expiry is part of `verify`.
- async/await, callbacks, `console.log` and `console.error` are left out. Every handler runs sequentially.
- SQLite is modelled as two tables:
  - the AUTOINCREMENT counters are `nextId`;
  - the UNIQUE e-mail column is a lookup before the insert;
  - any other database error is an optional argument.
  - The DDL, the connection and `getDatabase` are left out.
- WorkOrderRoutes.WorkOrderTable.ListByOwner: rows created in the same second may come back in any order, as SQLite does not promise one. The contract therefore states the order by `created_at` and the multiset of rows, not one exact sequence.
- Only some of multer is modelled: the file filter, the missing-file check, and the stored file's name from the clock and the original name. Creating the upload directory and `path.extname` are left out. A non-PDF upload is answered by Express's default error handler; the model records it as a 500 with the filter's message.
- Some response fields are left out:
  - the `details` field of the Monday.com failure response;
  - `req.params.id` parsing, as the id is a number;
  - the authentication middleware, as the caller's id is a number.
- `server/routes/auth.routes.js` and the React pages other than Signup's checks are left out. From `Signup.jsx` this includes rendering, the live checks of `handleChange`, and the `fetch` with its response handling. Their checks repeat the ones modelled.
- JavaScript values other than strings and `undefined` are left out: numbers, objects and arrays in request bodies. A form field is either a string or missing.
- Text.ToLower lowers only A-Z and the Kelvin sign; every other character keeps its case. This leaves out U+0130 (capital I with dot above), which `toLowerCase` turns into "i" followed by U+0307, two code units, and the case mappings of non-ASCII letters. Neither "done" nor "stuck" contains an "i" or a non-ASCII letter, so `includes("done")` and `includes("stuck")` come out the same.
- Js.Render: a missing wo renders as "undefined" in the server's item name. The model keeps this, but the route only sends a truthy wo.
- MondayApi.MapStatus is defined but never called in the repository. It is modelled as written.
- The older `sendToMonday` sends each string field, empty or not. `JSON.stringify` drops an `undefined` field, and the model drops it too.
