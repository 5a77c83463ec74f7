# Lecture Sociale — a verified model of the server routes and page logic

Lecture Sociale is a shared-reading platform. Readers join a *shared reading* of an EPUB book. They annotate passages, turn annotations into citations, and track their progress. Administrators manage users, books and readings. This project models the decisions the Express routes and middleware make:

- who may see or change what;
- which error status and message each guard returns, in the source's order;
- how each table changes when a request succeeds.

It also models the front end's countdown, share-text and list-filtering helpers. Each route handler is a Dafny `method` on a `Database` object whose fields are the tables, held as maps keyed by id. A handler that only reads is a `function`. Both return `Ok(value)` or `Refused(status, error)`. The EPUB chapter extraction, the paging arithmetic and the route guards are pure functions. Properties the source relies on across several calls are lemmas.

Modules, one per source file, plus two shared ones:

- `Common`: options, responses, JavaScript truthiness, ASCII lower-casing, `includes`, `split`/`join`, decimal printing, paging.
- `Store`: the tables and the integrity they keep.
- `Epub`, `Auth`, `ErrorHandler`, `SharedReadings`, `Admin`, `Annotations`, `Users`, `Books`.
- `Utils`: `frontend/src/lib/utils.ts`.
- `PublicReadings`: `frontend/src/pages/PublicReadingsPage.tsx`.

Conventions:

- Times are integers: milliseconds since the epoch.
- The clock, generated ids, invite codes, temporary passwords, password hashing and comparison, JWT verification and ISO date formatting are parameters of the members that use them.
- A Joi validation failure is modelled as a 400 whose error names the first offending key. The source sends Joi's own sentence, which names that key.
- Prisma errors that reach the error middleware are modelled by `ErrorHandler.Respond`:
  - a unique-key violation becomes 400 "Cette valeur existe déjà";
  - a foreign-key violation or an invalid argument becomes 500 with the database client's message.

Points where the model follows a detail of the code:

- Chapter titles are "Chapitre N", counted from 1 (backend/src/routes/epub.ts:93).
- When the package document sits at the archive root, `path.dirname` gives ".", so chapter paths are "./href" (backend/src/routes/epub.ts:195-196).
- A chapter's `href` is stored as the manifest gives it, relative to the package document (backend/src/routes/epub.ts:91).
- `POST /api/shared-readings` and `POST /api/annotations` validate the body but then read the raw body (backend/src/routes/sharedReadings.ts:257, backend/src/routes/annotations.ts:101). Joi's `isPublic` default of `true` therefore never applies:
  - an omitted `isPublic` is stored as the column's default, a parameter `columnDefault`;
  - for a reading, the omitted flag also makes `!isPublic` true, so an invite code is generated.
- `DELETE /api/admin/users/:id` reports an unknown id before refusing self-deletion. `DELETE /api/users/:id` does the opposite (backend/src/routes/admin.ts:686-703, backend/src/routes/users.ts:364-390).

## Model

| member | source | states |
|---|---|---|
| Auth.BearerToken | backend/src/middleware/auth.ts:16-18 | no header, or one not starting with "Bearer", gives no token; a token never holds a space |
| Auth.BearerTokenOf | backend/src/middleware/auth.ts:16-18 | `"Bearer " + t` yields exactly `t` when `t` has no space (RFC 6750 section 2.1 form) |
| Auth.BearerPrefixOnly | backend/src/middleware/auth.ts:16-17 | the check is a bare prefix test: "Bearer-x y" yields "y"; "Bearer" alone yields nothing |
| Auth.Authenticate | backend/src/middleware/auth.ts:12-57 | 401 "Token d'accès requis" without a truthy token; 401 "Token invalide" when verification fails or the user is gone; on success `req.user` is the verified user, otherwise it is unchanged |
| Auth.Authorize | backend/src/middleware/auth.ts:59-77 | proceeds iff a user is present with a listed role; 401 "Non authentifié" without a user; 403 "Accès non autorisé" for another role |
| ErrorHandler.Classify | backend/src/middleware/errorHandler.ts:15-49 | expired token → 401 "Token expiré"; bad token → 401 "Token invalide"; otherwise a message containing "Unique constraint failed" → 400 "Cette valeur existe déjà"; otherwise a `ValidationError` → 400 "Données invalides"; a 400 from no rule came from `statusCode`; any status other than 500, 400 or 401 is `statusCode`; the message is never empty |
| ErrorHandler.HandleError | backend/src/middleware/errorHandler.ts:15-46 | the step-by-step reassignment of `error` yields the reply `Classify` describes |
| ErrorHandler.UniqueViolationReply | backend/src/middleware/errorHandler.ts:28-31 | a unique-constraint failure is answered 400 "Cette valeur existe déjà" |
| ErrorHandler.UnmatchedReply | backend/src/middleware/errorHandler.ts:44-46 | an error no rule matches (no JWT or validation name, no unique marker in its message) keeps its status, or 500 when it has none or 0, and its message, or "Erreur serveur" when empty |
| Common.ContainsIffOccurs | backend/src/middleware/errorHandler.ts:28 | `includes` holds exactly when the phrase occurs at some position of the message |
| ErrorHandler.LaterRuleOverrides | backend/src/middleware/errorHandler.ts:22-42 | rules apply in sequence: a unique marker overrides a validation name; a JWT name overrides the marker |
| Epub.ChapterHref | backend/src/routes/epub.ts:88-91 | the href of the first manifest item with that id, or "" when none has it |
| Epub.BuildChapters | backend/src/routes/epub.ts:86-95 | one chapter per spine item, in spine order: id = idref, order = i+1, title "Chapitre i+1", href from the manifest |
| Epub.ChapterTitlesDistinct | backend/src/routes/epub.ts:93 | no two chapters share a title |
| Epub.Extract | backend/src/routes/epub.ts:49-109 | an unreadable archive or a missing container.xml is an error; on success the package document is an entry of the archive and `totalChapters` is the chapter count |
| Epub.ExtractWellFormed | backend/src/routes/epub.ts:55-104 | with a container naming an existing readable package, extraction succeeds with that package's description |
| Epub.ExtractPackageMissing | backend/src/routes/epub.ts:64-70 | a container naming no entry, or no path, fails with "package missing" |
| Epub.DescribeMetadata | backend/src/routes/epub.ts:78-80 | for each of title, creator and description: the default "Titre inconnu", "Auteur inconnu" or "" when missing; a text node as is; an element's `_` when truthy; else the raw element |
| Epub.Upload | backend/src/routes/epub.ts:112-172 | no file → 400 "Aucun fichier EPUB fourni"; any failure after that → 500, removing the file when it has a path; success exactly when extraction succeeds and each of title, author and description comes as text from the form or the package, with form fields overriding the extracted ones |
| Epub.Dirname | backend/src/routes/epub.ts:195 | `path.dirname`: never empty |
| Epub.ChapterPath | backend/src/routes/epub.ts:195-196 | the directory of the package document, a slash, then the href |
| Epub.RootPackageChapterPath | backend/src/routes/epub.ts:195-196 | a root-level package document gives "." and the path "./href" |
| Epub.NestedPackageChapterPath | backend/src/routes/epub.ts:195-196 | a package document at dir/file gives dir and the path dir/href |
| Epub.ReadChapter | backend/src/routes/epub.ts:175-237 | 404 "Livre non trouvé" without a book or file path; 500 when the archive cannot be opened; 404 "Chapitre non trouvé" exactly when there are no chapters or the index is not below their count; 500 for a NaN or negative index or a missing package path; for an index in range, success exactly when the archive has the chapter's path, else 404 "Contenu du chapitre non trouvé"; success returns that chapter with its navigation |
| Epub.TableOfContents | backend/src/routes/epub.ts:240-275 | 404 without the book or its metadata; 500 when the metadata has no chapter list; success exactly when it has one, listing every stored chapter with its index, id, title and href |
| Epub.TocIndicesReadable | backend/src/routes/epub.ts:188-265 | every index of the table of contents is a readable chapter, with the same id, title and href |
| Epub.UploadedChapterRange | backend/src/routes/epub.ts:133-190 | after an upload, chapter i is "not found" exactly when i is at least the number of chapters; a negative i fails with 500 instead |
| SharedReadings.GetReading | backend/src/routes/sharedReadings.ts:171-243 | 404 for an unknown reading; 403 unless public, created by the user or joined; success returns the reading |
| SharedReadings.PublicListing | backend/src/routes/sharedReadings.ts:27-105 | defaults page 1 and limit 10; a negative skip is refused by the database client; otherwise the rows are the page of matching rows at skip (page-1)·limit; each row returned is a listed row (public, not ended, matching the search); order kept; `pages` is the ceiling of total/limit |
| SharedReadings.SubsequenceKeepsOrder | backend/src/routes/sharedReadings.ts:81-85 | filtering keeps the newest-first order |
| SharedReadings.WindowInside | backend/src/routes/sharedReadings.ts:84-85 | a `skip`/`take` page holds only rows of the sequence |
| SharedReadings.SubsequenceKeepsOrderOfWindow | backend/src/routes/sharedReadings.ts:81-85 | a page of a filtered newest-first list is newest first |
| SharedReadings.DefaultListing | backend/src/routes/sharedReadings.ts:28-98 | without paging parameters: the first ten matching rows, and the page count covers all |
| SharedReadings.CreateViolation | backend/src/routes/sharedReadings.ts:11-18 | a body is accepted exactly when it has a title of 3 to 200, a description of 1 to 1000 if any, a book id, and start before end; a bad title is reported first |
| SharedReadings.Create | backend/src/routes/sharedReadings.ts:245-326 | role gate, then 400, then 404 "Livre non trouvé"; success inserts the reading, with `isPublic` or the column default and an invite code unless `isPublic` was sent as true, and makes the creator its only participant, at progress 0; failures change nothing |
| SharedReadings.JoinGate | backend/src/routes/sharedReadings.ts:331-370 | 404, then 400 "Vous participez déjà à cette lecture", then 403 for a private reading with a wrong code, then 400 "Cette lecture est terminée" once ended; proceeds iff none applies |
| SharedReadings.Join | backend/src/routes/sharedReadings.ts:328-390 | exactly one participant row at progress 0 is added when the gate proceeds; nothing otherwise |
| SharedReadings.JoinOnce | backend/src/routes/sharedReadings.ts:346-377 | a join adds one row, and any later join by the same user is refused with 400 |
| SharedReadings.UpdateIdempotent | backend/src/routes/sharedReadings.ts:415-420 | applying the same edit twice changes nothing the second time |
| SharedReadings.UpdateReading | backend/src/routes/sharedReadings.ts:392-444 | 404, then 403 "Permissions insuffisantes" unless admin or creator, then the foreign-key failure for an unknown book; success applies the truthy fields and nothing else |
| SharedReadings.WithoutOthers | backend/src/routes/sharedReadings.ts:478-486 | keeps every row except the reading's rows of users other than the creator |
| SharedReadings.WithNew | backend/src/routes/sharedReadings.ts:488-499 | adds a row at 0 for each listed non-creator id, keeping existing rows and their progress |
| SharedReadings.ReplacedRows | backend/src/routes/sharedReadings.ts:478-499 | after replacement the reading's members are exactly the creator, if they were one, and the listed ids |
| SharedReadings.ReplaceParticipants | backend/src/routes/sharedReadings.ts:446-505 | 400 without an id list, 404, 403, each with no change; otherwise the other members are removed, then the listed ids are added, and a listed id naming no user makes the insertion fail after the removal |
| SharedReadings.Clamp | backend/src/routes/sharedReadings.ts:539 | `Math.min(1, Math.max(0, p))` lies in [0, 1], is p inside it, and 0 or 1 outside |
| SharedReadings.UpdateProgress | backend/src/routes/sharedReadings.ts:507-569 | 403 "Vous ne participez pas à cette lecture" with no change; otherwise the participant row gets the clamped progress and the session the raw progress, `cfi \|\| ''` and the time |
| Admin.BuildDateFilter | backend/src/routes/admin.ts:260-276 | the filter admits a reading iff it has the requested status (active, ended, upcoming, or any) |
| Admin.StatusesPartition | backend/src/routes/admin.ts:263-276 | for start ≤ end, exactly one of active, ended, upcoming holds |
| Admin.ListReadings | backend/src/routes/admin.ts:252-327 | 403 for non-admins; defaults page 1 and limit 20; rows are those with the status, in order; page count as the ceiling of total/limit |
| Admin.CsvLines | backend/src/routes/admin.ts:537-539 | one line per annotation, in order |
| Admin.CsvLineFields | backend/src/routes/admin.ts:537-538 | a line's quoted fields are the date, the user, the page, the text and the comment, when none holds a quote |
| Admin.CsvShape | backend/src/routes/admin.ts:536-541 | the file's lines are the header and one line per annotation; an empty export is the header and an empty line |
| Admin.ExportReading | backend/src/routes/admin.ts:472-555 | 403, 404; CSV exactly when the format is "csv", else the reading and its annotations as JSON |
| Admin.NewUserViolation | backend/src/routes/admin.ts:622-627 | a body is accepted exactly when it has a name of 2 to 50, an address, a password of at least 6, and a status other than GUEST, USER by default; a bad name is reported first |
| Admin.CreateUserReply | backend/src/routes/admin.ts:618-678 | 403 for non-administrators, 400 naming the schema's failing key, then 400 "Un utilisateur avec cet email existe déjà" for a taken address; success exactly otherwise, with the hashed password, the status or USER, and no avatar |
| Admin.CreateUser | backend/src/routes/admin.ts:618-678 | answers as `CreateUserReply` on the users before the request; success adds exactly that user at the new id; failures change nothing |
| Admin.CreateUserOnce | backend/src/routes/admin.ts:640-650 | once a user is created, any valid request with the same address, from any administrator, is answered 400 "Un utilisateur avec cet email existe déjà" |
| Admin.DeleteUser | backend/src/routes/admin.ts:680-715 | 403, 404, then 400 for oneself; success removes exactly that user |
| Admin.ImportStep | backend/src/routes/admin.ts:738-776 | each row counts once as created or skipped; a row is created exactly when it has a name and an address not yet taken and a valid status, as the user with that name, address, hashed temporary password and status (USER by default) at the row's slot; a row without name or address is skipped with the "Ligne ignorée" error; an existing address is skipped without error and without change |
| Admin.ImportDefaultsToUser | backend/src/routes/admin.ts:740 | a new row without a status is created as a USER |
| Admin.ImportUsers | backend/src/routes/admin.ts:719-788 | 403; 400 for a missing or empty list; otherwise the loop's tally and user table are those of folding the rows in order |
| Admin.ImportAccounting | backend/src/routes/admin.ts:738-776 | created + skipped grows by the number of rows |
| Admin.ImportNoErrors | backend/src/routes/admin.ts:741-775 | well-formed rows record no error, whatever addresses already exist |
| Admin.ImportKeepsUsers | backend/src/routes/admin.ts:762-771 | existing users never change, and each creation adds one user |
| Admin.StepTakesEmail | backend/src/routes/admin.ts:749-771 | after a well-formed row its address is taken |
| Admin.TakenAfter | backend/src/routes/admin.ts:738-776 | the address of an earlier well-formed row stays taken for the rest of the list |
| Admin.DuplicateInBatchSkipped | backend/src/routes/admin.ts:749-756 | a repeated address later in the same list is skipped with no error and no change |
| Admin.Members | backend/src/routes/admin.ts:1009-1018 | the new reading's members are the creator and the listed ids, at progress 0; other rows unchanged |
| Admin.CreateReading | backend/src/routes/admin.ts:938-1050 | 403, 400, 404, then 400 "Certains utilisateurs n'existent pas" unless the ids are distinct existing users, then a unique violation when the creator is listed; success inserts the reading, public by default, with an invite code iff private, and its members; failures change nothing |
| Admin.MembersCount | backend/src/routes/admin.ts:1009-1018 | the new reading has one member more than the list names |
| Annotations.SortRowsCorrect | backend/src/routes/annotations.ts:77-80 | the sort yields the same rows ordered by page, then by creation time |
| Annotations.ListAnnotations | backend/src/routes/annotations.ts:27-87 | 404 and 403 as for opening the reading; success gives exactly the reading's public annotations and the requester's own, ordered by page then time |
| Annotations.AnnotationViolation | backend/src/routes/annotations.ts:11-18 | a body is accepted exactly when it has a reading, a comment of 1 to 1000, a position, a selection of 1 to 500 and a page of at least 1; a missing reading is reported first |
| Annotations.CreateAnnotation | backend/src/routes/annotations.ts:92-147 | 400 for the schema; 403 for a non-participant; success stores the annotation with the author, the fields, `isPublic` or the column default, and the time |
| Annotations.UpdateAnnotation | backend/src/routes/annotations.ts:152-203 | 400 before the lookup, then 404, and 403 unless `MayEdit`: the author only, administrators included; only the comment changes |
| Annotations.DeleteAnnotation | backend/src/routes/annotations.ts:208-240 | 404, then 403 unless author or administrator; success removes exactly that annotation |
| Annotations.AdminDeletesNotEdits | backend/src/routes/annotations.ts:177-225 | an administrator may delete another reader's annotation but not edit it; for anyone else deleting and editing are allowed alike; whoever may edit may delete |
| Annotations.CiteAnnotation | backend/src/routes/annotations.ts:245-289 | 404 for an unknown annotation; the citation copies the selected text, the book's author and title, and the platforms or none, with no access check |
| Annotations.GroupByUserCounts | backend/src/routes/annotations.ts:320-326 | one group per writer, never repeated, holding that writer's count |
| Annotations.GroupsOfRows | backend/src/routes/annotations.ts:320-326 | each group's count is the writer's number of rows, at least 1; every writer has a group |
| Annotations.Enrich | backend/src/routes/annotations.ts:364-367 | each group keeps its user and count and gains the user row when it exists |
| Annotations.ReaderStats | backend/src/routes/annotations.ts:294-367 | 404, then 403 unless creator or administrator; success gives one entry per writer of the reading with their count and user row |
| Users.ProfileViolation | backend/src/routes/users.ts:37-40 | a body is accepted exactly when its name, if present, has 2 to 50 characters and its address, if present, is an address; a bad name is reported first |
| Users.UpdateProfile | backend/src/routes/users.ts:83-143 | 400 for the schema; 400 "Cet email est déjà utilisé" when another user has the address; success replaces the given fields and the avatar path, nothing else |
| Users.ProfileKeepsEmailsUnique | backend/src/routes/users.ts:103-118 | a profile update never gives two users one address |
| Users.ChangePassword | backend/src/routes/users.ts:145-185 | 400 for a missing current or short new password; 400 "Mot de passe actuel incorrect" when it does not match; success stores the new hash only |
| Users.UpdateStatus | backend/src/routes/users.ts:311-358 | 403, 400 for a status outside the five, 404; success sets that status only |
| Users.StatusWhitelist | backend/src/routes/users.ts:47-49 | a status is accepted iff it is USER, TRANSLATOR, AUTHOR, GUEST or ADMIN |
| Users.DeleteUser | backend/src/routes/users.ts:360-409 | 403, 400 for oneself before the lookup, 404, 400 for a creator of readings; success removes exactly that user |
| Books.BookViolation | backend/src/routes/books.ts:52-57 | a form is accepted exactly when it has a title of 1 to 200, an author of 1 to 100, a description of at most 1000 and a page count of at least 1, when present; a bad title is reported first |
| Books.BookData | backend/src/routes/books.ts:192-202 | no page count gives 0; the EPUB and cover URLs under /uploads; no cover gives no cover URL |
| Books.CreateBook | backend/src/routes/books.ts:165-216 | role gate; 400 for the schema; 400 without an EPUB file; success inserts the row |
| Books.UpdateBook | backend/src/routes/books.ts:218-263 | 403, 404; a page count that is not a number is refused by the database client; success replaces the defined fields and the cover, nothing else |
| Books.DeleteBook | backend/src/routes/books.ts:265-308 | 403, 404, 400 while a reading uses the book; success removes exactly that book; the administration route `DELETE /books/:id` (backend/src/routes/admin.ts:891-936) makes the same decisions |
| Books.DownloadEpub | backend/src/routes/books.ts:310-346 | 404; 403 unless administrator or viewer of some reading of the book; success gives the file's path |
| Books.ViewerMayDownload | backend/src/routes/books.ts:317-337 | whoever may open a reading may download its book |
| Store.CountReadingsZero | backend/src/routes/books.ts:289 | a `_count` is 0 iff no reading satisfies the condition; backend/src/routes/users.ts:393 counts the same way |
| Common.ParseRole | backend/src/routes/users.ts:47-49 | the enum's names parse back to their roles |
| Common.IntOr | backend/src/routes/sharedReadings.ts:28-29 | `parseInt(x) \|\| d`: the default for NaN and 0, else the number |
| Common.CeilDiv | backend/src/routes/sharedReadings.ts:98 | `Math.ceil(total / limit)` for a positive limit |
| Common.Window | backend/src/routes/sharedReadings.ts:84-85 | `skip`/`take`: refused for a negative skip, else the rows from skip, at most take of them |
| Utils.CalculateTimeRemaining | frontend/src/lib/utils.ts:26-47 | all zero once the end has passed; otherwise total = end - now, hours < 24, minutes and seconds < 60, and the parts add up to the total within a second |
| Utils.Decompose | frontend/src/lib/utils.ts:41-44 | the remainders by day, hour and minute split the total into the parts |
| Utils.GenerateShareText | frontend/src/lib/utils.ts:53-64 | starts with the quoted selection and the attribution line; ends with a blank line and "#LectureSociale" |
| Utils.ShareTextJoin | frontend/src/lib/utils.ts:59-63 | the text is its lines joined by line breaks |
| Utils.ShareTextLines | frontend/src/lib/utils.ts:59-63 | read line by line: quote, attribution, a blank line and the comment iff it is non-empty, a blank line and the hashtag |
| Utils.ShareCommentIff | frontend/src/lib/utils.ts:61 | the comment changes the text iff it is non-empty |
| PublicReadings.LoadReadings | frontend/src/pages/PublicReadingsPage.tsx:166-188 | the successive filters keep, in order, exactly the readings matching the non-empty search and the status selector |
| PublicReadings.FilterTwice | frontend/src/pages/PublicReadingsPage.tsx:169-186 | filtering by one condition then another is filtering once by both |
| PublicReadings.EmptySearchKeepsAll | frontend/src/pages/PublicReadingsPage.tsx:169-175 | an empty term would keep every reading even if applied |
| PublicReadings.GetStatusInfo | frontend/src/pages/PublicReadingsPage.tsx:196-226 | upcoming iff now < start; ended iff started and now > end; active otherwise, showing the countdown, or "Se termine bientôt" iff now = end |
| PublicReadings.StatusFilterAgrees | frontend/src/pages/PublicReadingsPage.tsx:178-225 | for start ≤ end, the selector keeps a reading iff its label has that status |
| PublicReadings.StatusFilterNeedsOrderedDates | frontend/src/pages/PublicReadingsPage.tsx:184-207 | without start ≤ end they disagree: a reading ending before it starts is kept as ended yet labelled upcoming |

## Left out

- Zip and XML parsing: archives are sequences of entries with their already-parsed documents. Byte decoding, UTF-8 and adm-zip's path handling are not modelled.
- JSON parsing of stored EPUB metadata: the stored chapters and package path are kept as values.
- Joi machinery: only the bounds each schema states are modelled. Unknown-key rejection and Joi's messages are not; a refusal names the first failing key.
- E-mail syntax: simplified to an `@` between two non-empty parts.
- Case-insensitive matching: ASCII letters only.
- Password hashing and comparison, JWT signing and verification, `Math.random` codes and passwords, file names from `Date.now`, and the clock are parameters.
- `Promise.all`: modelled sequentially.
- Foreign-key cascades beyond those stated, and citations of a deleted annotation, are not modelled.
- The raw SQL aggregates are not modelled: admin dashboard and statistics, the per-day and per-hour series of the annotation statistics, and the shared-reading statistics. They are computed by the database engine.
- Administrative and listing routes with no guard to state are not modelled: `GET /admin/dashboard`, `GET /admin/users`, `GET /admin/books`, `POST /admin/books`, `DELETE /admin/shared-readings/:id`, `DELETE /admin/annotations/:id`, `GET /shared-readings/my`, `GET /books`, `GET /books/:id`, `GET /users/profile`, `GET /users/stats`, `GET /users`.
- `formatDate`, `formatDateTime` and `formatProgress` are left out: they use locale formatting and floating point. A label's date line keeps the date itself.
- The React rendering, fetches and reader components are not modelled.
- Users.UpdateProfile: requires that the authenticated user still exists. The middleware has just loaded that user.
- Annotations.Enrich: attaches the whole user row. The route selects only the id, name, status and avatar.
- SharedReadings.UpdateProgress: the progress is a number. A missing or non-numeric `progress` makes the source store NaN in the participant row and pass `undefined` to the session (backend/src/routes/sharedReadings.ts:510-555); that case is not modelled.
- SharedReadings.CodeMatches: a given invite code is a string or absent. An explicit `null` in the body would match a reading whose stored code is null; that case is not modelled.
- Admin.ImportStep: the text of a database error is modelled only for a status outside the enum, the one refusal the loop can meet. Other database failures are not modelled.
- Utils.CalculateTimeRemaining: reads the clock it is given once. The page reads it again inside `getStatusInfo`.
- Multer's storage and file filters are not modelled: an uploaded file is its stored name, path, size and type.
