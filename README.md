# Ward drug-order backend: a Dafny model

This project models the core of a hospital drug-order backend.

- **Orders.** Ward staff create drug orders for patients, and each order gets a daily sequence id `ORD-YYMMDD-NNN`. Staff list, fetch, update and delete orders. They see only the orders of their own ward.
- **Patients.** A patient is found or created by hospital number (HN) when an order is written. A ward user sees a patient only when at least one of the patient's orders is in that ward.
- **Notifications.** Each user lists their notifications newest first. Reading a notification deletes it.
- **Sharing.** A shared screenshot, sent as a `data:` URI, is stored under a sanitised unique file name. A preview page is written beside it. A sweep removes images older than 15 days, together with their pages.
- **Uploads.** Order attachments pass an upload filter with a size limit and get a generated stored name.

The database tables are sequences of rows held by the `OrdersController.OrderDatabase` and `Notifications.NotificationStore` classes. The two shared directories are a sequence of file entries and a map of page files, held by `SharedDirs.SharedDirectories`. Each handler is specified by an *outcome function*: the reply it gives and the tables it leaves behind. The mutating methods are proved equal to these functions. The lemmas state what the handlers promise: status-code ordering, ward scoping, exact list contents and order, uniqueness of keys, and round trips.

The clock, the random source and the calendar date are parameters. `now` is milliseconds and `random` is a real in `[0, 1)`. The current date is a `(year, month, day)` triple.

Modules:
- Shared helpers:
  - `Common`: responses, options and JavaScript truthiness.
  - `Strings`: decimal numerals, `split`/`join`, `padStart`, ASCII lower-casing and code-point order.
  - `Seqs`: filter and a descending insertion sort.
  - `Paths`: `path.basename`, `path.extname` and `path.parse(..).name`.
- Orders and patients:
  - `OrderRecords`: rows and lookups.
  - `OrderIds`: the id generator.
  - `OrderPayload`: the request normalisers.
  - `DrugEnrichment`: the catalog join.
  - `OrdersQuery`: the read handlers.
  - `OrdersController`: the write handlers and the order database.
  - `PatientsController`: patient visibility.
  - `Notifications`: the notification store.
  - `Seed`: the seed parser.
- Sharing and uploads:
  - `SharedDirs`: the two shared directories.
  - `SharedStorage`: stored image names.
  - `ShareController`: saving a shared image.
  - `SharedCleanup`: the expiry sweep.
  - `Upload`: the upload filter and naming.

Where the code and its description differ, the model follows the code, with two exceptions:
- `updateOrder` has no ward check on the order itself.
- `deleteOrder` has no ward check at all.
- The wiring mismatches are listed under "Left out".
- The first exception is the notification handlers. They read the caller from a field the signed-in user does not have (see "Findings"). `Notifications.NotificationStore` uses the corrected caller, the user's `id`. The code as written is modelled by the `Notifications.AsWritten…` members.
- The second exception is the share save and the expiry sweep, `ShareController.SaveOutcome` and `SharedCleanup.RemoveExpiredSharedImages`. As written, both import exports of `sharedImageStorage.js` that do not exist. So every save that passes the two 400 checks is answered 500 with nothing written, and every sweep fails before it reads the directory. The model gives the intended behaviour instead, as the `sharedImageStorage.js` line under "Left out" says.

## Model

| member | source | states |
|---|---|---|
| OrderIds.DatePrefixShape | src/api/orders/orders.controller.js:5-9 | The day prefix is `ORD-` followed by six digits. The digits denote the year modulo 100, the month and the day. Requires a year of at least two digits and a month and day below 100. |
| OrderIds.LastTwoDigits | src/api/orders/orders.controller.js:6 | The last two characters of a year numeral of two or more digits are two digits that denote the year modulo 100. |
| OrderIds.LastIdWithPrefixIsGreatest | src/api/orders/orders.controller.js:11-14 | The lookup finds nothing exactly when no id starts with the prefix. Otherwise it returns an existing id with that prefix that is greatest in code-point order among all ids of the prefix. |
| OrderIds.ThirdSegmentOf | src/api/orders/orders.controller.js:18 | `split("-")[2]` of `prefix-digits` is the digit string, for a prefix with exactly one dash. |
| OrderIds.ParseDigits | src/api/orders/orders.controller.js:18 | `parseInt(s, 10)` of a non-empty digit string is the number it denotes. |
| OrderIds.NextAfterDigits | src/api/orders/orders.controller.js:16-20 | When the greatest id of the day ends in a digit string, the next number is that string's value plus one. |
| OrderIds.PaddedNumber | src/api/orders/orders.controller.js:22 | The padded number is all digits, has no dash and denotes `n`. It is exactly three long while `n <= 999`. |
| OrderIds.FormatParseRoundTrip | src/api/orders/orders.controller.js:18-22 | For every `n`, parsing the third segment of the formatted id gives back `n`. |
| OrderIds.FirstOrderOfDay | src/api/orders/orders.controller.js:11-22 | With no id of the day, the generated id is `prefix-001`. |
| OrderIds.ThreeDigitOrder | src/api/orders/orders.controller.js:13 | On three-digit strings, code-point order is numeric order. |
| OrderIds.CanonicalOrder | src/api/orders/orders.controller.js:13 | Ids of one day in the shape `prefix-DDD` compare in code-point order as their numbers compare. They are equal exactly when their numbers are equal. |
| OrderIds.GeneratedIdIsFresh | src/api/orders/orders.controller.js:4-22 | Suppose every id of the day has the shape `prefix-DDD` and is numbered below 999. Then the generated id has that shape, is not in the table, and sorts after every id of the day. |
| OrderIds.IdRepeatsAfter999 | src/api/orders/orders.controller.js:13-22 | Past 999 the generator repeats itself. After `-999` it makes `-1000`. With `-1000` stored it makes `-1000` again, because `"999"` sorts after `"1000"`. |
| OrdersController.UpsertPatient | src/api/orders/orders.controller.js:25-38 | The upsert fails exactly when the patient data is absent or its `hn` is falsy. |
| OrdersController.UpsertExisting | src/api/orders/orders.controller.js:29-31 | For a known HN the patient keeps its id and ward. Only its `fullName` and `an` change, each only when given. Every other patient is unchanged and the table keeps its length. |
| OrdersController.UpsertNew | src/api/orders/orders.controller.js:32-37 | For a new HN exactly one patient is appended, with the fresh id and the acting user's ward. |
| OrdersController.UpsertKeepsUnique | src/api/orders/orders.controller.js:29-38 | The upsert keeps hospital numbers and patient ids unique, and the returned id names a patient of the new table. |
| OrderPayload.MapDrugsPayload | src/api/orders/orders.controller.js:41-48 | One stored line per input line, in order. Each keeps `drugId`, `dose` and `day`. It carries `name` exactly for an `"other"` drug. |
| OrderPayload.MapDrugsAppend | src/api/orders/orders.controller.js:41-42 | The mapping commutes with concatenation, so it keeps line order. |
| OrderPayload.NamedOnlyWhenOther | src/api/orders/orders.controller.js:47 | A stored line has a name only when its drug id is `"other"` and the input line had a name. |
| OrderPayload.NormaliseDate | src/api/orders/orders.controller.js:52-61 | A date field becomes a `Date` exactly when it is present and truthy, and `null` otherwise. It is never left as text. The `Date` has the value's time, so it is an Invalid Date exactly when a truthy text does not parse. |
| OrderPayload.NormaliseDates | src/api/orders/orders.controller.js:50-63 | Both date fields are normalised and every other field of the payload is copied unchanged. |
| OrderPayload.NormaliseDatesIdempotent | src/api/orders/orders.controller.js:50-63 | Normalising normalised dates changes nothing. |
| OrderPayload.ParseAttachments | src/api/orders/orders.controller.js:65-84 | The result is `[]` for a falsy value. An array is returned as is. A non-empty text gives its parse when well formed and `[]` when malformed. Any other value gives `[]`. |
| OrderPayload.ParseAttachmentsIdempotent | src/api/orders/orders.controller.js:65-84 | Parsing a parsed list returns the same list. |
| OrderPayload.NewAttachment | src/api/orders/orders.controller.js:237-242 | An upload's attachment keeps its file name, type and size. Its URL is `/public/uploads/` followed by the file name. |
| OrderPayload.CombinedAttachments | src/api/orders/orders.controller.js:245 | The existing attachments come first, in their order, followed by one attachment per upload, in upload order. |
| OrderPayload.Merge | src/api/orders/orders.controller.js:247-256 | In the object spread, every key the later object carries wins. Every other key comes from the earlier object. |
| OrderRecords.FindOrder | src/api/orders/orders.controller.js:190-196 | The lookup by id finds a row with that id, and finds nothing exactly when no row has it. |
| OrderRecords.FindOrderUnique | src/api/orders/orders.controller.js:190-196 | In a table with unique ids the lookup finds the only row with the id. |
| OrderRecords.FindByHn | src/api/orders/orders.controller.js:29-30 | The lookup by hospital number finds a patient with that HN, and finds nothing exactly when none has it. |
| OrderRecords.FindPatient | src/api/patients/patients.controller.js:39-41 | The lookup by patient id finds a patient with that id, and finds nothing exactly when none has it. |
| DrugEnrichment.LineIdsIff | src/api/orders/orders.controller.js:93-97 | An id is collected from an order's lines exactly when some line carries it as a truthy drug id. |
| DrugEnrichment.DrugIdsOfIff | src/api/orders/orders.controller.js:91-98 | The batch id set is exactly the union of the ids collected from each order. |
| DrugEnrichment.DrugIdOfLine | src/api/orders/orders.controller.js:94-95 | Every truthy drug id of every line of every order is in the batch id set. |
| DrugEnrichment.NoEmptyDrugId | src/api/orders/orders.controller.js:94 | The empty string is never collected. |
| DrugEnrichment.EnrichLines | src/api/orders/orders.controller.js:114-120 | Each line keeps every field except `name`. The name becomes the catalog name when the id is truthy and known, else the line's own name, else `""`. |
| DrugEnrichment.Enriched | src/api/orders/orders.controller.js:86-121 | An empty batch is returned unchanged. Otherwise the order count, every field but `drugs`, each order's line count and every line field but `name` are kept. |
| DrugEnrichment.EnrichedNames | src/api/orders/orders.controller.js:100-121 | Each enriched name follows the chain catalog name, else embedded name, else `""`, when the batch has any drug id. When the batch has no drug id the names are untouched. |
| DrugEnrichment.CatalogNameWins | src/api/orders/orders.controller.js:115-118 | A line whose drug id is in the catalog takes the catalog's name. |
| DrugEnrichment.EnrichedKeepsIds | src/api/orders/orders.controller.js:112-121 | Enrichment keeps every line's drug id, so it keeps the batch id set. |
| DrugEnrichment.EnrichedIdempotent | src/api/orders/orders.controller.js:86-121 | Enriching enriched orders with the same catalog changes nothing. |
| DrugEnrichment.CatalogLookup | src/api/orders/orders.controller.js:107-110 | The lookup map holds exactly the catalog entries whose ids were asked for, with the catalog's names. |
| DrugEnrichment.EnrichOrders | src/api/orders/orders.controller.js:86-122 | The procedure fills the id set with nested loops, queries the catalog once, then names every line through the lookup. Its result equals the specification `Enriched`. |
| OrdersQuery.Respond | src/api/orders/orders.controller.js:169-172 | A response row is the order with only its attachments replaced by their parsed list. |
| OrdersQuery.RespondAll | src/api/orders/orders.controller.js:169-172 | Every row is shaped, and the count and order are kept. |
| OrdersQuery.ResponseRows | src/api/orders/orders.controller.js:168-172 | After enrichment and shaping, each response row equals its source row apart from drug lines and attachments. |
| OrdersQuery.ListRowsExact | src/api/orders/orders.controller.js:148-165 | The rows of a list query are exactly the orders the `where` clause selects: ward, patient and, when both bounds are given, the inclusive `updatedAt` range. They come newest `createdAt` first. |
| OrdersQuery.ListReply | src/api/orders/orders.controller.js:147-177 | Without `latest`, a successful reply is 200 with the enriched, shaped rows of the query. |
| OrdersQuery.ListedOrders | src/api/orders/orders.controller.js:124-183 | A successful list reply holds only rows selected by the `where` clause, holds every selected order, and is sorted by `createdAt` descending. |
| OrdersQuery.ListIsWardScoped | src/api/orders/orders.controller.js:132-135 | For a ward user, every listed order and the latest order belong to the user's ward. |
| OrdersQuery.LatestReply | src/api/orders/orders.controller.js:137-146 | With `patientId` and `latest=true` the reply is 200 with `null` when there is no candidate, and else the first candidate, enriched. |
| OrdersQuery.LatestCandidatesExact | src/api/orders/orders.controller.js:138-140 | The candidates of `latest` are exactly the orders of the ward and patient, newest first. |
| OrdersQuery.FirstCandidateIsNewest | src/api/orders/orders.controller.js:140 | The first of a newest-first list holding every candidate is at least as new as each candidate. |
| OrdersQuery.LatestOrderIsNewest | src/api/orders/orders.controller.js:137-146 | The `latest` reply is `null` exactly when the patient has no order the user may see. Otherwise it is such an order with the greatest `createdAt`. |
| OrdersQuery.NotFoundBeforeForbidden | src/api/orders/orders.controller.js:198-200 | `getOrderById` answers 404 exactly for an unknown id, whoever asks. |
| OrdersQuery.OrderByIdAccess | src/api/orders/orders.controller.js:198-212 | For a known id the reply fails exactly for a ward user outside the order's ward, and then it is 403. Otherwise it is 200 with the row, its attachments parsed. |
| OrdersController.CreateRejections | src/api/orders/orders.controller.js:221-233 | Create answers 403 exactly for a user without a ward, and then nothing changes. A missing or falsy `hn` is a 500 that changes nothing. |
| OrdersController.CreatedRow | src/api/orders/orders.controller.js:247-256 | Each column of the created row comes from `otherData` when it carries that key. Otherwise it comes from the generated id, the upserted patient, the user's ward, the mapped drugs, the combined attachments or the notes. Dates are normalised and both timestamps are the clock. |
| OrdersController.CreateStoresOrder | src/api/orders/orders.controller.js:247-260 | A successful create answers 201 and appends exactly the new row. The patient table is the upsert's, the row's columns are as in `CreatedRow`, and neither of its dates is an Invalid Date. |
| OrdersController.CreateRejectsInvalidDate | src/api/orders/orders.controller.js:233-264 | After the patient upsert, with `drugs` an array, a start or completion date that becomes an Invalid Date is a 500. The order table is unchanged and the patient table is the upserted one. |
| OrdersController.CreateKeepsUnique | src/api/orders/orders.controller.js:258 | Create keeps order ids, hospital numbers and patient ids unique. |
| OrdersController.CreateSucceeds | src/api/orders/orders.controller.js:219-260 | Suppose the user has a ward, the fields are present, `otherData` has no id and no date that becomes an Invalid Date, and the day's ids are canonical below 999. Then create succeeds. |
| OrdersController.AttachmentOrderExample | src/api/orders/orders.controller.js:245 | An existing attachment `A` with an upload `C` is stored as `[A, C]`. |
| OrdersController.UpdateRejections | src/api/orders/orders.controller.js:270-289 | Update answers 404 exactly for an unknown id, then 403 exactly for a known id and a user without a ward. It answers 400 exactly when, in addition, `hn` is missing or `drugs` is not an array. None of these changes a table. |
| OrdersController.UpdateHasNoOrderWardCheck | src/api/orders/orders.controller.js:275-278 | A ward user is never answered 403 by update, whatever ward the order is in. |
| OrdersController.UpdateReplacesRow | src/api/orders/orders.controller.js:283-317 | A successful update answers 200, replaces exactly that row and stores the upserted patient table. Each column is `otherData`'s when it carries that key. Otherwise the patient is the upserted one, the drugs are the mapped lines, the creator is the supplied one or else the stored one, the notes are the supplied ones or else the stored ones, the attachments are the existing ones followed by the uploads, and the ward and id are kept. The dates are re-normalised, so they become `null` unless given again, and neither is an Invalid Date. It keeps `createdAt` and sets `updatedAt` to the clock. |
| OrdersController.UpdateRejectsInvalidDate | src/api/orders/orders.controller.js:293-323 | After the checks pass and the patient upsert has run, a start or completion date that becomes an Invalid Date is a 500. The order table is unchanged and the patient table is the upserted one. |
| OrdersController.UpdateKeepsUnique | src/api/orders/orders.controller.js:314-317 | Update keeps order ids, hospital numbers and patient ids unique. |
| OrdersController.RemoveAt | src/api/orders/orders.controller.js:334 | Removing one row of a table with unique ids keeps every other row and drops that id. |
| OrdersController.DeleteRemovesExactly | src/api/orders/orders.controller.js:329-335 | Delete answers 404 exactly for an unknown id and then changes nothing. Otherwise the table loses exactly that row and keeps all others. |
| OrdersController.OrderDatabase.GetAllOrders | src/api/orders/orders.controller.js:124-183 | The reply is the query's outcome over the current table. |
| OrdersController.OrderDatabase.GetOrderById | src/api/orders/orders.controller.js:185-217 | The reply is the lookup's outcome over the current table. |
| OrdersController.OrderDatabase.EnsurePatientRecord | src/api/orders/orders.controller.js:25-38 | It throws (`None`) and changes nothing exactly when the upsert fails. Otherwise the patient table becomes the upserted one and the patient's id is returned. |
| OrdersController.OrderDatabase.CreateOrder | src/api/orders/orders.controller.js:219-265 | The reply and both new tables are the create outcome, including its 500 for an id already taken or an Invalid Date. Uniqueness is preserved. |
| OrdersController.OrderDatabase.UpdateOrder | src/api/orders/orders.controller.js:267-324 | The reply and both new tables are the update outcome, including its 500 for an id already taken or an Invalid Date. Uniqueness is preserved. |
| OrdersController.OrderDatabase.DeleteOrder | src/api/orders/orders.controller.js:326-340 | The reply and the new order table are the delete outcome, and the patient table is unchanged. |
| PatientsController.AllPatientsExact | src/api/patients/patients.controller.js:9-25 | The list holds only visible patients, each with exactly its visible orders, and holds every visible patient. |
| PatientsController.UnscopedSeesAll | src/api/patients/patients.controller.js:10-22 | A user without a ward sees every patient, in table order, each with all of its orders. |
| PatientsController.ListedOrdersInWard | src/api/patients/patients.controller.js:20-24 | For a ward user, every included order is of the user's ward and of that patient. |
| PatientsController.CountZeroIff | src/api/patients/patients.controller.js:49-56 | The count is zero exactly when the patient has no order in the user's ward. |
| PatientsController.UnknownPatientIs404 | src/api/patients/patients.controller.js:43-45 | An unknown patient id is answered 404, whoever asks. |
| PatientsController.KnownPatientAccess | src/api/patients/patients.controller.js:47-61 | A known patient is answered 403 exactly for a ward user without an order of the patient in the ward. Otherwise the answer is 200 with the patient. |
| PatientsController.ListedIffFetchable | src/api/patients/patients.controller.js:5-61 | A patient is in the list exactly when fetching it by id succeeds. |
| Notifications.FindNotification | src/api/notifications/notifications.controller.js:26-28 | The lookup by id finds a row with that id, and finds nothing exactly when none has it. |
| Notifications.ListIsCallersOwn | src/api/notifications/notifications.controller.js:9-12 | A user's list holds exactly their notifications, each as often as in the table, sorted newest first. |
| Notifications.ListHeadIsNewest | src/api/notifications/notifications.controller.js:11 | When the user has a notification, the first entry is theirs and is at least as new as each of theirs. |
| Notifications.RemoveNotificationAt | src/api/notifications/notifications.controller.js:34-36 | Removing one row keeps ids unique, drops that id and keeps every other row. |
| Notifications.DeleteOwnedOnly | src/api/notifications/notifications.controller.js:26-37 | Delete answers 404 exactly when the id is missing or belongs to someone else, and then nothing changes. Otherwise it answers 204, that row is gone, and every other row remains. |
| Notifications.AsWrittenListsEveryone | src/api/notifications/notifications.controller.js:6-12 | With the caller read as `req.user.userId`, everyone's notifications are listed to every user. |
| Notifications.AsWrittenDeleteAlwaysRejects | src/api/notifications/notifications.controller.js:23-32 | With the caller read as `req.user.userId`, every delete is answered 404 and nothing changes. |
| Notifications.AsWrittenExample | src/api/notifications/notifications.controller.js:23-37 | A concrete table where a user cannot delete their own notification as written, and can with the caller's `id`. |
| Notifications.NotificationStore.GetNotifications | src/api/notifications/notifications.controller.js:5-18 | With the corrected caller `u.id`, not the code's `req.user.userId`, the reply is the caller's list over the current store. |
| Notifications.NotificationStore.MarkAsReadAndDelete | src/api/notifications/notifications.controller.js:21-42 | With the corrected caller `u.id`, not the code's `req.user.userId`, the reply and the new store are the delete outcome, and ids stay unique. |
| Seed.ParseDrugDetail | prisma/seed.js:7-17 | A falsy input gives empty value and unit. An input without a space is all value. Otherwise value, a space and unit rebuild the input, and the unit has no space. |
| Seed.ParseJoined | prisma/seed.js:9-13 | For a unit without a space, `value + " " + unit` parses back to that value and unit. |
| Seed.ParseSeveralWords | prisma/seed.js:9-13 | `"AUC 5-6 mg"` splits at its last space. |
| Seed.ParseTrailingSpace | prisma/seed.js:9-13 | `"400 "` gives value `"400"` and an empty unit. |
| ShareController.ResolveExtension | src/api/share/share.controller.js:11-14 | The extension is `.jpg` exactly for `image/jpeg` or `image/jpg`, and `.png` otherwise. |
| ShareController.SubtypeRunSpec | src/api/share/share.controller.js:69 | The subtype run is the longest prefix of subtype characters `[A-Za-z0-9.+-]`. |
| ShareController.MatchDataUriComplete | src/api/share/share.controller.js:69 | Every `data:image/<subtype>;base64,<data>`, with a non-empty subtype of the class and non-empty single-line data, is matched with that MIME type and data. |
| ShareController.MatchDataUriSound | src/api/share/share.controller.js:69-72 | Whatever matches has exactly that form. |
| ShareController.AcceptedMimeIsImage | src/api/share/share.controller.js:69-76 | A matched MIME type starts with `image/`. It resolves to `.jpg` only when the URI starts `data:image/jpe` or `data:image/jpg`. |
| ShareController.PageLength | src/api/share/share.controller.js:16-59 | The page's length is the template's plus four times the URL's, so the URL is placed four times. |
| ShareController.PageEmbedsUrl | src/api/share/share.controller.js:24-56 | The page is the template's pieces with the absolute image URL at its four places: `og:image`, the refresh target, `img src` and `a href`. Each piece sits at its computed offset. |
| ShareController.PageDeterminesUrl | src/api/share/share.controller.js:16-59 | Two equal pages embed the same image URL. |
| ShareController.SaveSharedImage | src/api/share/share.controller.js:61-102 | The reply and both directories afterwards are the save outcome, and directory names stay unique. |
| ShareController.SaveRejections | src/api/share/share.controller.js:65-72 | The reply is 400 `imageBase64 is required` exactly for a missing or falsy image. It is 400 `Invalid image data` exactly when the image does not match. Neither changes a directory. Success happens exactly when the image matches. |
| ShareController.AcceptedIsSaved | src/api/share/share.controller.js:74-101 | An accepted image is saved under the name built from its base and its MIME type's extension. |
| ShareController.DefaultBaseName | src/api/share/share.controller.js:79 | Without a `fileName` the stored name is `shared-image-<now>-<draw><ext>`. |
| ShareController.StoredNameIsStemAndExt | src/api/share/share.controller.js:79 | The stored name is the sanitised stem followed by the resolved extension. |
| ShareController.StoredNameExtension | src/api/share/share.controller.js:76-79 | `path.extname` of the stored name is the resolved extension. |
| ShareController.StoredPageName | src/api/share/share.controller.js:87 | The page file name is the stored image's stem followed by `.html`. |
| ShareController.StoredNameShape | src/api/share/share.controller.js:79-87 | The three facts above: stem plus extension, the extension read back, and the paired page name. |
| ShareController.SaveReply | src/api/share/share.controller.js:84-101 | The reply is 201 with `/public/shared-images/<stored>`, the absolute image URL, the absolute page URL, the stored name, `expiresAt = now + SHARE_TTL_MS` and `ttlDays = 15`. |
| ShareController.SaveWritesImage | src/api/share/share.controller.js:82 | The image directory afterwards has a regular file of the stored name stamped `now`. It keeps unique names, and every other entry is kept and nothing else is added. |
| ShareController.SaveAddsPage | src/api/share/share.controller.js:87-93 | The page directory gains exactly the paired page name. |
| ShareController.SavePageContent | src/api/share/share.controller.js:92-93 | The paired page holds the preview page of the absolute image URL. |
| ShareController.SaveKeepsOtherPages | src/api/share/share.controller.js:93 | Every other page is kept unchanged. |
| ShareController.SaveWritesPage | src/api/share/share.controller.js:87-93 | The page directory after a save: one page added, its content, and all other pages the same. |
| ShareController.SavedImageExpiry | src/utils/sharedImageCleanup.js:19-25 | A saved image is expired at `later` exactly when `later - now > SHARE_TTL_MS`. Its page is then removed by the sweep. |
| SharedDirs.WriteEntry | src/api/share/share.controller.js:82 | Writing a file leaves a regular file of that name stamped with the clock. It keeps names unique, keeps every other entry and adds no other entry. |
| SharedStorage.Sanitize | src/utils/sharedImageStorage.js:11 | The sanitised text is no longer than the input and holds only `[a-z0-9_-]`. |
| SharedStorage.SanitizeLowerFirst | src/utils/sharedImageStorage.js:11 | Sanitising is lower-casing followed by keeping the allowed characters in their order. |
| SharedStorage.SanitizeAppend | src/utils/sharedImageStorage.js:11 | Sanitising commutes with concatenation. |
| SharedStorage.SanitizeChar | src/utils/sharedImageStorage.js:11 | One character is kept, lower-cased, exactly when it is in `[A-Za-z0-9_-]`. |
| SharedStorage.SanitizeClean | src/utils/sharedImageStorage.js:11 | An already clean text is unchanged. |
| SharedStorage.SanitizeIdempotent | src/utils/sharedImageStorage.js:11 | Sanitising twice is sanitising once. |
| SharedStorage.StoredBaseShape | src/utils/sharedImageStorage.js:11 | The stored base is non-empty and clean. |
| SharedStorage.NothingKeptFallsBack | src/utils/sharedImageStorage.js:11 | A base with no allowed character becomes `shared-image`. |
| SharedStorage.DefaultBaseIsClean | src/utils/sharedImageStorage.js:10-11 | The default base `shared-image` is kept as it is. |
| SharedStorage.Draw | src/utils/sharedImageStorage.js:12 | `Math.floor(Math.random() * 1e6)` is below one million. |
| SharedStorage.StemHasNoDotOrSlash | src/utils/sharedImageStorage.js:11-13 | The stem `base-now-draw` is non-empty and has no `.` or `/`. |
| SharedStorage.StoredNameExt | src/utils/sharedImageStorage.js:13 | For `.png` or `.jpg`, the name ends in that extension and `path.parse` gives back the stem. |
| SharedStorage.StoredNameDistinct | src/utils/sharedImageStorage.js:12-13 | For one base and extension, equal names have equal timestamps and equal random draws. |
| SharedCleanup.PagesOf | src/utils/sharedImageCleanup.js:21-24 | Each removed image's page is its stem followed by `.html`. |
| SharedCleanup.RemoveExpiredSharedImages | src/utils/sharedImageCleanup.js:9-38 | The returned names are the expired regular files in directory order. The image directory keeps exactly the others. The page directory loses exactly the pages of the removed images. |
| SharedCleanup.SweepPartition | src/utils/sharedImageCleanup.js:15-32 | Every entry is either kept or reported, never both. Directories are never removed, and the counts add up. |
| SharedCleanup.NothingExpired | src/utils/sharedImageCleanup.js:19 | With nothing expired the sweep keeps everything and reports nothing. |
| SharedCleanup.SweepIdempotent | src/utils/sharedImageCleanup.js:15-20 | A second sweep at the same time removes nothing. |
| SharedCleanup.SweepMonotone | src/utils/sharedImageCleanup.js:19 | An image expired at some time is expired at every later time. |
| SharedCleanup.ExactlyTtlOldIsKept | src/utils/sharedImageCleanup.js:5-19 | A file exactly `SHARE_TTL_MS` old (15 days) is kept, and one a millisecond older is removed. |
| SharedCleanup.SurvivingUnique | src/utils/sharedImageCleanup.js:20 | The sweep keeps directory names unique. |
| SharedCleanup.PagesAfterKeys | src/utils/sharedImageCleanup.js:21-25 | A page remains exactly when it existed and is not the page of a removed image. A missing page is ignored. |
| SharedCleanup.PagesAfterValues | src/utils/sharedImageCleanup.js:25 | A remaining page keeps its content. |
| Upload.FileTypesTestIff | src/middleware/upload.js:16-18 | The unanchored test holds exactly when one of `jpeg`, `jpg`, `png`, `gif` or `pdf` occurs somewhere in the text. |
| Upload.CheckFileTypeSpec | src/middleware/upload.js:15-25 | A file is accepted exactly when its lower-cased extension and its MIME type each contain one of the words. Otherwise the error is `Error: PDFs and Images Only!`. |
| Upload.NoExtensionRejected | src/middleware/upload.js:17 | A name without a dot has no extension and is rejected, whatever its MIME type. |
| Upload.ExtensionCaseDoesNotMatter | src/middleware/upload.js:17 | Upper- and lower-case extensions are judged alike. |
| Upload.UpperCaseMimeRejected | src/middleware/upload.js:18 | A MIME type without a lower-case ASCII letter is rejected, because the MIME test is case-sensitive. |
| Upload.Suffix | src/middleware/upload.js:10 | The random suffix lies in `[100000, 999999]`. |
| Upload.SuffixHasSixDigits | src/middleware/upload.js:10 | The suffix is written with six digits. |
| Upload.UploadKindIff | src/middleware/upload.js:8 | The stored name starts `image-` exactly when the MIME type starts with `image`, and starts `pdf-` otherwise. |
| Upload.UploadNameShape | src/middleware/upload.js:11 | The stored name keeps the original's extension, and its stem is `kind-timestamp-suffix`. |
| Upload.UploadNameDistinct | src/middleware/upload.js:9-11 | For one kind and extension, equal stored names have equal timestamps and equal suffixes. |
| Upload.UploadOutcomeSpec | src/middleware/upload.js:27-33 | A file that fails the filter is refused with the error. One that passes is refused as too large exactly when its size exceeds 10,000,000 bytes, and is stored under its generated name otherwise. |
| Paths.ExtFromLastDot | src/middleware/upload.js:17 | `path.extname` of `stem.x` is `.x` and `path.parse(..).name` is the stem. |
| Paths.DotfileHasNoExt | src/middleware/upload.js:17 | A leading dot alone is part of the name: a dotfile has no extension. |
| Paths.ParseNameThenExt | src/api/share/share.controller.js:87 | `path.parse(p).name` followed by `path.extname(p)` is the base name. The extension is empty or a single dotted segment. |
| Paths.StemThenExt | src/utils/sharedImageCleanup.js:23 | A dot-free stem followed by an extension parses back to that stem and that extension. |

## Left out

- Prisma's `include` relations (`createdBy`, `patient`) are not modelled. Rows carry only their own columns.
- `JSON.parse` of the request fields is not modelled. The handlers take decoded values. `parseAttachments` gets the parse of a text as an input outcome: well formed with a list, or malformed. A well-formed text whose parse is not a list (`"null"`, `"{}"`, `"5"`) is returned as parsed by the code; that case is not modelled.
- The order of rows with equal `createdAt` is not modelled: the database may order ties either way. `Seqs.SortDesc` puts them in one fixed order, and no lemma depends on it.
- The 500 replies for I/O and connection failures in the catch blocks are not modelled. The model does give these 500s that follow from the data: a missing HN on create, a non-array `drugs` on create, an invalid range date on a list, an id already taken on create or update, and a start or completion date that becomes an Invalid Date on create or update. The patient upsert that precedes a failing `drugs`, id or date check is kept, as in the handler's order of steps. The data-caused 500s of the next line are not modelled.
- `OrdersController.UpsertPatient`: `PatientInput` cannot hold an explicit `null` or a value that is not text. This gap also covers `OrdersController.UpsertExisting`. First, for an existing HN, `{"hn":"H1","an":null}` makes the database store `null`, or answer 500 if the column is required, while the model keeps the stored `an`; the same holds for `fullName`. Second, a truthy `hn` that is not text, such as `123`, is refused by the database with a 500 that the model cannot express.
- `OrderPayload.OrderData` holds only the nine order keys, each present with a value or absent. `otherData` is spread whole into the row, and four cases the model cannot express follow from that. These cases are left out of `OrdersController.CreatedRow`, `OrdersController.CreateStoresOrder`, `OrdersController.UpdateReplacesRow` and both outcome functions. First, an explicit `null` for a key: `{"wardId": null}` is stored as `null`, while the model keeps the user's ward. Second, `createdAt` or `updatedAt` in `otherData`, which the code stores in place of the clock. Third, an unknown key, which the database refuses with a 500. Fourth, a `createdById` or `patientId` naming no row, a foreign-key failure and a 500.
- Date fields in a request are texts or `null`. A number, which `new Date` would also accept, is not modelled.
- Random ids for new patients are a parameter (`newPatientId`), as is the catalog of drug names (`catalog`).
- Concurrent requests are not modelled. In particular, two creates on one day can race for the same id. Handlers are sequential.
- Order status transitions, notification fan-out to pharmacists and socket emits are not modelled: no core file implements them.
- The authentication middleware and JWT checks are not modelled. The signed-in user is an input holding an id and an optional ward.
- The drug, regimen and auth controllers are not modelled. They are thin lookups with no logic to prove.
- The seed script's `main` and its data arrays are not modelled. They are fixed data written by I/O.
- The route files are not modelled. `notifications.routes.js` imports a `markAsRead` export that does not exist, and `index.js` never mounts the notifications router.
- `sharedImageStorage.js` does not export `SHARED_PAGE_DIR` or `ensureSharedAssets`, although the share controller and the cleanup import them. The model gives the intended behaviour: both directories exist and are written.
- Directory creation (`mkdir`, `ensureSharedImageDir`) is not modelled.
- `Buffer` base64 decoding is not modelled. Image contents are not stored, only the directory entry.
- `expiresAt` is kept as the integer `now + SHARE_TTL_MS`, not as its ISO text.
- `startSharedImageCleanup` with `setInterval` and `CLEANUP_INTERVAL_MS` is left out: it is scheduling only.
- The logger is not modelled.
- `RemoveExpiredSharedImages` does its deletions one after another. The source runs them concurrently with `Promise.all`, and the outcome is the same because every entry has its own file and page.
- `baseName.toString()` on a value that is not a string is not modelled. The base name is text or omitted.
- Lower-casing (`toLowerCase`) is modelled for ASCII letters only. Other scripts' case mappings are left out.
- `Date.now()`, `new Date()` and `Math.random()` are parameters. The model takes the calendar date as a `(year, month, day)` triple and random values as reals in `[0, 1)`.
- `Upload.UploadOutcomeSpec`: multer streams the body and aborts past the size limit. The model judges the declared size against the limit instead.
- `Upload.UploadOutcomeSpec`: the destination directory `./public/uploads/` is not modelled.
- `OrderIds.GeneratedIdIsFresh` proves freshness only while every id of the day is numbered below 999. Past that point the generator repeats, as `OrderIds.IdRepeatsAfter999` shows.
- `PatientsController.AllPatients`: its own contract states only a length bound. The listing is specified by `PatientsController.AllPatientsExact` and `PatientsController.UnscopedSeesAll`.

## Findings

| source | as written | input that shows it | evidently intended | confidence | as-written member | corrected member |
|---|---|---|---|---|---|---|
| src/api/notifications/notifications.controller.js:6 | Both handlers read the caller as `req.user.userId`. The authentication middleware (src/middleware/auth.middleware.js:15-18, 24) attaches a user selected as `{ id, fullName, username, wardId }`, so the value is `undefined`. Prisma drops an `undefined` filter, so the list shows every user's notifications. `notification.userId !== undefined` always holds, so every delete is 404. | Any signed-in user: user `a` who owns notification `n1` lists everyone's notifications, and `DELETE n1` answers 404. | Read the caller as `req.user.id`. Each user then sees exactly their own notifications and can delete exactly those. | not executed | Notifications.AsWrittenDeleteAlwaysRejects | Notifications.DeleteOwnedOnly |
| src/api/notifications/notifications.controller.js:9-12 | Because the caller is `undefined`, `where: { userId }` filters nothing, and every user gets every notification. | Two users `a` and `b` each with one notification: `a`'s list holds both. | List only the caller's notifications. | not executed | Notifications.AsWrittenListsEveryone | Notifications.ListIsCallersOwn |
