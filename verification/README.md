# A verified model of the NeuraSend campaign core

NeuraSend is a small Flask application that sends one HTML e-mail campaign
to a list of recipients over SMTP. This project models its core in Dafny and
proves what the code promises:

- **Configuration** (`AppConfig`). This is the body of the `Config` class. DATABASE_URL, VERCEL and the
  application directory decide the database URI and the upload folder. A
  `postgres://` URI is rewritten to `postgresql://`.
- **Campaign creation** (`Campaigns`). This is the POST branch of `new_campaign`.
  - The manual field is split on commas and newlines, and each piece is stripped.
    Empty pieces are dropped.
  - The CSV column values are added, the combined list is deduplicated as a
    set, and the campaign row is inserted with `total_emails` equal to the set's size.
  - Attachment rows are stored, and one `pending` log is created per set element. Its address is stripped
    at insertion.
- **Dispatch** (`Dispatch`). This is `send_campaign_background`.
  - The credentials are resolved: explicit values first, then the stored settings, with the password
    decrypted.
  - If that fails or the campaign is missing, the task stops without touching anything.
  - Otherwise every `pending` log of the campaign is attempted once through the transport. It
    becomes `sent` or `failed` with the error text, and the matching counter
    goes up.
- **Status** (`Campaigns.CampaignStatus`). This is `campaign_status`: the three
  counters, plus `completed` once sent + failed reaches the total.

The database is one immutable value, `Models.Store`. It holds the settings row, the
campaigns by key, the attachment and log tables in insertion order, and the
next campaign key. The pending-log query (app.py:45) and the attachment
relationship (app.py:48) have no ORDER BY, so the source promises no row order.
The model chooses table order for both. Two things proved depend on that choice:
the order of the attempts, whose numbers the transport sees, and the order of
the attachment list that every attempt carries (row order in
`Dispatch.AttachmentPathsOwn`, hence upload order in
`Lifecycle.CreatedAttachmentPaths`). Which logs are attempted (`Dispatch.WalkCovers`) does not depend on it. `Models.Valid` is referential integrity. `Models.Consistent`
says that every campaign's total is its number of logs and that its two counters are its
numbers of `sent` and `failed` logs. `Models.ErrorsMatchStatus` says that a log
carries a failure reason exactly when its status is `failed`. Creation, taken as one atomic
insert of the campaign, its attachments and its logs, and dispatch both preserve all three.
The lifecycle lemmas (`Lifecycle`) chain the operations. A campaign that is created
and then dispatched with usable credentials reports `completed`, with one
sent-or-failed count per distinct recipient.

Things the model takes as parameters instead of computing:

- The SMTP transport is an oracle. It takes the attempt number and the request, and returns `Delivered`
  or `Rejected(reason)`.
- Fernet decryption is a function returning `None` where the library raises.
- The filename sanitiser is a function.
- The CSV reader's result is the list of email-column values, or "unreadable".
- The iteration order of Python's `set` is a parameter, `order`, required to list each element
  once.
- An unset value and an empty one are both `""` for DATABASE_URL, VERCEL, the
  `manual_emails` field and the explicit sender email and password. The code tests these
  only for truthiness, so it treats the two alike. `subject` and `content` are different:
  the model takes them as present strings (see "Left out").

The code deduplicates *before* it strips (app.py:131 against app.py:166). As a result,
CSV values that differ only in surrounding whitespace count twice in
`total_emails` and produce two logs with the same address.
`Campaigns.CsvWhitespaceDuplicates` proves this for any two such values, and
`Campaigns.StripExample` shows that `" a@b"` and `"a@b"` are one such pair. The stored addresses are proved distinct only
for manual input (`Campaigns.ManualAddressesDistinct`). This is the code's behaviour, and it is
modelled as written.

## Model

| member | source | states |
|---|---|---|
| `PyStr.IsSpace` | app.py:127 | CPython's `str.isspace` on one character, the set that `strip()` removes; `PyStr.SpaceCharacters` pins it to the 29 code points of CPython's whitespace table |
| `PyStr.SpaceCodesDistinct` | app.py:127 | the whitespace table lists 29 code points in strictly increasing order, so 29 distinct characters |
| `PyStr.SpaceCharacters` | app.py:127 | a character is whitespace for `strip()` iff its code point is one of the 29 in CPython's table: TAB to CR, the four information separators, SPACE, NEXT LINE, NO-BREAK SPACE, OGHAM SPACE MARK, EN QUAD to HAIR SPACE, LINE and PARAGRAPH SEPARATOR, NARROW NO-BREAK SPACE, MEDIUM MATHEMATICAL SPACE, IDEOGRAPHIC SPACE |
| `PyStr.LeadingSpace` | app.py:127 | the count covers only whitespace and stops at the first non-whitespace character or the end |
| `PyStr.TrailingSpace` | app.py:127 | the count covers only whitespace and stops at the last non-whitespace character or the start |
| `PyStr.LStrip` | app.py:166 | the result is the suffix left after removing the leading run of whitespace (Python's `isspace` set) |
| `PyStr.RStrip` | app.py:166 | the result is the prefix left after removing the trailing run of whitespace |
| `PyStr.Strip` | app.py:127 | the result is an infix with only whitespace cut off on both sides; it neither starts nor ends with whitespace; it is empty iff the input is all whitespace |
| `PyStr.StripChars` | app.py:127 | `strip()` introduces no character: everything in the result was in the input |
| `PyStr.StripPadded` | app.py:166 | stripping `a + m + b` with whitespace `a`, `b` and a stripped non-empty `m` gives back exactly `m` |
| `PyStr.Split` | app.py:127 | `split(sep)` returns at least one piece; no piece contains the separator or any character not in the input |
| `PyStr.JoinSplit` | app.py:127 | re-joining the pieces of a split with the separator gives back the original string |
| `PyStr.SplitJoin` | app.py:127 | splitting a join of separator-free pieces gives back the pieces |
| `PyStr.ReplaceChar` | app.py:140 | after `replace(c, rep)` no `c` is left (when `rep` has none); every character comes from `rep` or is a non-`c` character of the input; input without `c` is unchanged |
| `PyStr.ReplaceCharAppend` | app.py:140 | `replace` of a concatenation is the concatenation of the replacements |
| `PyStr.ReplaceCharOne` | app.py:140 | a single character becomes `rep` when it is the pattern and stays otherwise; with `ReplaceCharAppend` this fixes every occurrence becoming `rep` |
| `PyStr.ReplaceCharPointwise` | app.py:127 | replacing a character by one character keeps the length and changes exactly the positions that held it |
| `PyStr.FindFrom` | config.py:31 | `find(pat, i)` gives the first position at or after `i` where `pat` occurs, or none if it occurs nowhere there |
| `PyStr.ReplaceFirst` | config.py:31 | `replace(pat, rep, 1)` leaves a string without `pat` unchanged and, on a string starting with `pat`, swaps that prefix for `rep` |
| `PyStr.PathJoin` | app.py:151 | `os.path.join(a, b)` on a POSIX host (`posixpath.join`): an absolute `b` wins; otherwise the result starts with `a` and ends with `b`, a non-empty `a` is followed by a `/`, and the length is that of `a` and `b` plus one `/` exactly when `a` is non-empty and does not already end in `/` |
| `Models.NewCampaign` | models.py:11-17 | a new campaign row keeps subject, body and total, with both counters at their default 0 |
| `AppConfig.FixScheme` | config.py:29-31 | a URI starting with `postgres://` gets `postgresql://` in place of that prefix with the rest kept; any other URI is unchanged; the result never starts with `postgres://` |
| `AppConfig.Resolve` | config.py:10-31 | no DATABASE_URL and no VERCEL gives the local SQLite file and the local upload folder; no DATABASE_URL with VERCEL gives the /tmp SQLite file and /tmp/uploads; a non-postgres URL is used unchanged; a postgres URL has its scheme rewritten; the upload folder depends only on VERCEL; paths are joined as on a POSIX host |
| `AppConfig.UploadFolderIgnoresDatabaseUrl` | config.py:12-27 | two DATABASE_URL values give the same upload folder |
| `AppConfig.FixSchemeIdempotent` | config.py:30-31 | applying the scheme rewrite twice gives the same as once |
| `AppConfig.FixSchemeKeepsPostgresql` | config.py:30-31 | a URI already starting with `postgresql://` is not touched |
| `Dispatch.ResolveCredentials` | app.py:29-43 | explicit email and password are used unchanged; otherwise each missing one comes from the settings, the password through decryption; a decryption exception is reported iff the password was missing, settings exist and decryption raises; credentials resolve iff both end up non-empty |
| `Dispatch.AttachmentPaths` | app.py:48 | a path is in the list iff some attachment row of the campaign has it |
| `Dispatch.AttachmentPathsAppend` | app.py:48 | the path list of two tables in sequence is the two path lists in sequence, duplicates kept |
| `Dispatch.AttachmentPathsNone` | app.py:48 | a campaign without attachment rows gets no path |
| `Dispatch.AttachmentPathsOwn` | app.py:48 | when every row belongs to the campaign there is exactly one path per row, the row's path, in row order |
| `Dispatch.RequestFor` | app.py:51-58 | the call for a log goes to the log's address, with the resolved sender, the campaign's subject and HTML body and the run's attachment list |
| `Dispatch.RequestsDifferOnlyInRecipient` | app.py:48-58 | within one run, the calls for any two logs are the same except for the recipient, and identical for two logs with the same address |
| `Dispatch.Record` | app.py:60-66 | the log becomes `sent` iff the transport succeeded and `failed` iff it failed, carrying the error text exactly when it failed; campaign and address are kept |
| `Dispatch.Tally` | app.py:60-66 | exactly one counter grows by one, `sent_count` iff the transport succeeded; subject, body and total are kept |
| `Dispatch.Walk` | app.py:50-68 | the loop over the log table keeps the table's length |
| `Dispatch.WalkFrame` | app.py:45-58 | rows that are not pending logs of the campaign come out unchanged; no row changes campaign or address |
| `Dispatch.WalkAttemptsPending` | app.py:45-50 | every attempt is for a pending log of the campaign, and no log is attempted twice |
| `Dispatch.WalkNoneSkipped` | app.py:45-50 | every pending log of the campaign is attempted |
| `Dispatch.WalkCovers` | app.py:45-50 | the attempts are exactly the campaign's pending logs, each once; they follow table order, which is the model's choice for the unordered query |
| `Dispatch.WalkCalls` | app.py:50-66 | each call carries the resolved sender, the campaign's subject and body and the one attachment list to the log's address; the log is recorded with that call's outcome |
| `Dispatch.WalkCounters` | app.py:60-66 | `sent_count` grows by the successes and `failed_count` by the failures; subject, body and total are kept |
| `Dispatch.RecordCounts` | app.py:60-66 | recording one pending log moves one status count of its campaign and no other count |
| `Dispatch.WalkBookkeeping` | app.py:60-68 | the counters move in step with the status counts of the campaign's logs; other campaigns' counts are unchanged |
| `Dispatch.DispatchLoop` | app.py:50-68 | the imperative loop computes the same logs, campaign row and attempts as the fold |
| `Dispatch.SendCampaign` | app.py:24-71 | failed resolution or a missing campaign changes nothing and sends nothing; settings, attachments, keys and other campaigns are never changed |
| `Dispatch.SendCampaignEffect` | app.py:45-66 | with usable credentials the calls are exactly the pending logs, once each, with the same subject, body and attachments; non-pending logs are untouched; no log of the campaign stays pending; the counters grow by the successes and failures |
| `Dispatch.WalkKeepsErrors` | app.py:50-66 | the loop keeps every log's failure reason present exactly when its status is `failed`: a delivery leaves a pending log without one, a rejection writes one together with `failed` |
| `Dispatch.SendCampaignKeepsErrors` | app.py:24-71 | a run keeps every log's failure reason present exactly when its status is `failed` |
| `Dispatch.SendCampaignCountsPending` | app.py:45-66 | the number of calls is the campaign's number of pending logs, and sent + failed grows by exactly that number |
| `Dispatch.NothingPendingIsNoOp` | app.py:45-50 | with no pending log of the campaign a run changes nothing and sends nothing |
| `Dispatch.SendCampaignIdempotent` | app.py:45-50 | a second run after a successful one, with any credentials and transport, changes nothing |
| `Dispatch.SendCampaignPreservesConsistency` | app.py:60-68 | a run keeps referential integrity and keeps every campaign's counters equal to its log status counts |
| `Dispatch.StartAllowed` | app.py:184-188 | the send route's guard: it refuses only when an explicit email or password is missing and no settings row exists; `Dispatch.StartAllowedIff` relates it to the task's own resolution |
| `Dispatch.StartAllowedIff` | app.py:184-188 | the route starts the task iff settings exist or the explicit values alone resolve (app.py:29-43); when it refuses, the task would find the credentials missing |
| `Dispatch.RefusedStartIsNoOp` | app.py:184-188 | whenever the send route refuses to start the task, the task would have changed nothing |
| `Campaigns.ManualPieces` | app.py:127 | the manual field's pieces contain no comma or newline, and joined with commas they give back the field with newlines turned into commas |
| `Campaigns.KeepStripped` | app.py:127 | the kept entries are non-empty and stripped; an entry is kept iff it is a non-empty stripped piece |
| `Campaigns.ManualList` | app.py:124-128 | each manual recipient is non-empty, stripped, free of commas and newlines; a string is one iff it is the non-empty strip of a piece of the field |
| `Campaigns.ManualListOfEmpty` | app.py:125 | an empty manual field contributes nothing, so the source's emptiness guard does not change the result |
| `Campaigns.RecipientList` | app.py:107-128 | the combined list is the CSV values in order followed by the manual entries; the `if manual_emails_raw` guard makes no difference |
| `Campaigns.Recipients` | app.py:130-131 | an address is a recipient iff it is in the combined CSV-plus-manual list |
| `Campaigns.EnumerationSize` | app.py:131-141 | an order listing a set's elements once each is as long as the set |
| `Campaigns.NamedUploads` | app.py:148-149 | an upload is kept iff it has a non-empty name |
| `Campaigns.NamedUploadsAppend` | app.py:148-149 | the filter works piece by piece and keeps a single upload iff it has a name, which fixes it as the in-order filter |
| `Campaigns.AttachmentRows` | app.py:146-160 | one row per upload with a non-empty name, in upload order: the `i`-th row belongs to the new campaign, is named by the sanitised `i`-th name and has that name joined to the upload folder as path |
| `Campaigns.NewLogs` | app.py:162-170 | one log per recipient, all of the new campaign, `pending` and without error text |
| `Campaigns.Insert` | app.py:137-170 | the new campaign takes the next key; existing rows are kept as a prefix; one log per recipient is added; other campaigns are unchanged |
| `Campaigns.CreateCampaign` | app.py:107-170 | an unreadable CSV is refused; otherwise the request is refused iff the recipient set is empty; an accepted request inserts under the next key |
| `Campaigns.InsertedCampaign` | app.py:138-142 | the new row has the given subject, the body with newlines as `<br>`, the number of distinct recipients as total, both counters 0 |
| `Campaigns.NewLogsCoverRecipients` | app.py:163-168 | each new log's address is a recipient stripped, and each recipient gives one |
| `Campaigns.CreatedCampaign` | app.py:124-170 | the created campaign has a newline-free body, total equal to the number of distinct recipients and nothing sent; each added log is pending with a stripped recipient address, and each recipient has one |
| `Campaigns.InsertKeepsValid` | app.py:146-170 | the new rows point at the new campaign, keeping referential integrity |
| `Campaigns.InsertKeepsErrors` | app.py:162-170 | the new logs are pending without a failure reason, so every log still carries a reason exactly when it failed |
| `Campaigns.InsertKeepsConsistent` | app.py:137-170 | the new campaign's total equals its log count, all pending, and no other campaign's counts change |
| `Campaigns.CreateKeepsInvariants` | app.py:124-170 | an accepted request keeps integrity and consistency, with one pending log per distinct recipient |
| `Campaigns.ManualAddressesDistinct` | app.py:124-131 | with manual input only, the stored addresses are pairwise distinct and each is a manual entry |
| `Campaigns.InsertedLogs` | app.py:141-168 | the new campaign's total is the number of entries, and the `i`-th appended log is the pending, error-free log of the `i`-th entry stripped |
| `Campaigns.CsvWhitespaceDuplicates` | app.py:119-166 | on any database and for any subject, body and uploads, two different CSV values with the same stripped form are two recipients: the campaign's total is 2 and both new logs carry that one stripped address |
| `Campaigns.StripExample` | app.py:166 | `" a@b"` and `"a@b"` are different strings with the same stripped form `a@b` |
| `Campaigns.CampaignStatus` | app.py:200-208 | a missing campaign is a 404; the counters are returned verbatim; the state is completed iff sent + failed reaches the total |
| `Campaigns.CompletedIffNothingPending` | app.py:207 | on a consistent database the status reads completed iff none of the campaign's logs is pending |
| `Lifecycle.CreateThenSendCompletes` | app.py:124-208 | create, then dispatch with usable credentials: the status is completed, the total and sent + failed both equal the number of distinct recipients, and that many calls are made |
| `Lifecycle.CreatedIsProcessing` | app.py:138-207 | a new campaign reports processing with nothing sent or failed |
| `Lifecycle.CreatedAttachmentPaths` | app.py:146-160 | the files a dispatch (app.py:48) of a new campaign attaches are exactly its named uploads, in upload order (the model's choice of table order, as app.py:48 has no ORDER BY), each as the upload folder joined with its sanitised name |
| `Lifecycle.SendNeverRegresses` | app.py:60-66 | a run never lowers a counter or changes a total, and a completed campaign stays completed |

## Left out

- Sending mail (`send_email_smtp`, utils.py). SMTP over SSL, MIME assembly and attachment file reads are I/O. They are the `Transport` oracle. The only contract kept is "success, or failure with an error text".
- Fernet encryption and decryption of the stored password (utils.py). This is a foreign cryptographic library. Decryption is the `Decrypt` parameter, and `None` stands for the raised exception.
- The thread that runs the background task, and the three-second pause after each message. These are concurrency and timing. Two runs of the same campaign at once could both attempt a log. Each run is modelled as atomic.
- The per-log commit. A run is modelled as all-or-nothing, so an interruption mid-run is not modelled. The logs already committed by an interrupted run are `sent` or `failed`, and a later run resumes from the remaining `pending` ones.
- pandas CSV parsing, including the email-column lookup and `dropna().unique()`. Its result enters as `CsvInput`. Column values are taken to be strings. A non-string cell would make the code's `strip()` raise, and that is not modelled.
- Saving uploaded files and `secure_filename`. The sanitiser is a parameter, and `file.save` is I/O.
- Creation's three commits. The source commits the campaign row (app.py:144), then the attachment rows (app.py:160), then the logs (app.py:170), and calls `file.save` in between (app.py:152). If a save raises, or the attachment or log insert fails (app.py:160, app.py:170; see the column limits below), the campaign row is already stored with its `total_emails` and has no logs. That row breaks `Models.Consistent`, and its status reads `processing` forever. One way this happens is a name that the sanitiser reduces to "", so the path is the folder itself. The model makes creation one atomic insert and assumes every save succeeds. So the invariants it proves for creation hold only for requests whose saves all succeed.
- A missing `subject` or `content` form field. Without `content`, `content.replace` raises (app.py:140). Without `subject`, the insert fails on the non-null column (app.py:144, models.py:13). Either way the request ends in a server error after the recipient checks, and no campaign is created. The model's `subject` and `content` are strings, so it covers requests that send both fields. An empty value creates a campaign, as in the code.
- The Flask routes other than the status query: rendering, flash messages and redirects; the settings page; the dashboard; the test-send endpoint; CSV export; database reset; `check_schema.py`.
- Timestamps (`created_at`, `sent_at`, `uploaded_at`). These come from a clock.
- `SECRET_KEY`, `ENCRYPTION_KEY`, `MAX_CONTENT_LENGTH` and `SQLALCHEMY_TRACK_MODIFICATIONS`. These are random keys and framework settings that the core does not read.
- Column length limits (`String(120)` for a log's address at models.py:34, `String(255)` for an attachment's name at models.py:27, and others). SQLite, the fallback database (config.py:16-20), ignores them and stores over-long values, as the model does. PostgreSQL rejects them. There, an address over 120 characters fails the log insert (app.py:170), and a sanitised name over 255 characters fails the attachment insert (app.py:160). Both happen after the campaign row is committed (app.py:144), which gives the same orphan campaign as a failed save.
- The host's path flavour. `os.path.join` is modelled as `posixpath.join` (`PyStr.PathJoin`), so the model assumes a POSIX host. On Windows, `ntpath` joins with `\` and treats drive letters specially (config.py:20-21, config.py:27, app.py:151).
- Merge fields and open or click tracking. No code implements them.
- The comment on the `status` column in models.py lists `'success'`. The code writes `pending`, `sent` and `failed`, and those are the three values of `Models.Status`.
- `Dispatch.Walk`: its own contract states only that the length is kept. What the loop does is stated by the `Walk…` lemmas and by `Dispatch.SendCampaignEffect`.
