# Contact service: a Dafny model of the contact handlers

The service keeps contacts (name, email and any number of phone numbers) in
two tables, `contacts` and `phone_numbers`, and serves six HTTP handlers:
create, delete, list, search, update and CSV export. This project models
each handler as a pure transition over an in-memory copy of the two tables.
The transition goes from a store and a request to a status, a JSON body and
the store the handler leaves behind. Over these transitions it proves the
consistency rules the handlers keep and the ones they do not keep.

- `tables.dfy` (module `Tables`): the rows, the store, and the SQL
  statements the handlers issue (`SELECT … WHERE id`, `DELETE … WHERE`,
  `UPDATE … SET`, the phone-number lookups). `contacts` is a sequence in
  primary-key order and `phone_numbers` a sequence in insertion order.
  The queries carry no `ORDER BY`, so these orders are an assumption about
  what the engine returns, not something SQL promises. The
  AUTO_INCREMENT counter `nextId` plays the part of `insertId`. `Valid`
  is the store invariant every handler keeps: keys are unique and
  ascending, and no row refers to a key the counter has not issued yet.
- `handlers.dfy` (module `Handlers`): POST, DELETE, PUT and GET
  `/contacts`, with lemmas that relate each write to what GET `/contacts`
  returns afterwards.
- `search.dfy` (module `Search`): the left join, the abstract `WHERE`
  condition, and the loop that groups result rows by contact key. A
  declarative reference grouping is proved equal to that loop.
- `csv_export.dfy` (module `CsvExport`): the records the export writes.
  It also defines a splitter that proves the `", "` join recoverable.

JavaScript falsiness is modelled explicitly. A string that is absent
(`undefined`/`null`) or empty is falsy. This governs the name and email
fallback of PUT and the phone filter of the search grouping.

The model follows the code in two places where one might expect otherwise:
that deleting a contact also deletes its phone numbers, and that a search
matching everything returns the same as GET `/contacts`.
- DELETE removes only the `contacts` row. The handler issues no statement
  against `phone_numbers`, so the model keeps those rows. This assumes
  `phone_numbers.contact_id` carries no foreign key at all: a cascading key
  would remove the rows, and a restricting key would make the DELETE fail.
  Because the rows stay, a deleted contact's numbers stay taken:
  `Handlers.DeletedNumbersStayTaken` proves that a later POST offering one
  of them gets 400.
- Search drops a stored empty-string number because it is falsy, while GET
  `/contacts` lists it. `Search.SearchAllIsList` therefore holds only for
  stores without such numbers.

Three lemmas state where the code keeps phone numbers globally unique and
where it does not:
- The POST check compares each number only with the stored rows and never
  with the other numbers of the same request.
  `Handlers.CreateKeepsUnique` proves that uniqueness survives a
  successful POST whose list repeats nothing. `Handlers.CreateRepeatedNumber`
  shows that `["111", "111"]` on an empty store is accepted and stores the
  number twice.
- PUT makes no duplicate check at all. `Handlers.UpdateSkipsDuplicateCheck` gives a
  store where PUT gives a contact a number another contact already has.

## Model

| member | source | states |
|---|---|---|
| `Handlers.Create` | app.js:15-58 | 500 exactly when `phoneNumbers` is absent; 400 "Duplicate phone numbers are not allowed" exactly when some supplied number is present in any `phone_numbers` row, including rows a deleted contact left behind; on 400 and 500 the store is unchanged; on 200 "Contact created successfully", the old rows are a prefix of both tables, one contact with the given name and email is appended under the counter's key, the counter advances by one, and one phone row per supplied number, in order and owned by that key, is appended |
| `Handlers.CreateKeepsValid` | app.js:40-50 | on a valid store a successful create keeps the store valid; the new key was used by no contact row and no phone row; the key set grows by exactly that key |
| `Handlers.CreateContactRow` | app.js:40-44 | after a successful create the new key finds a contact with the given name and email, and every other key finds what it found before |
| `Handlers.CreatePhoneRows` | app.js:46-50 | after a successful create the new contact's numbers read back exactly as supplied, in input order, and every other contact's numbers are unchanged |
| `Handlers.CreateKeepsUnique` | app.js:21-50 | if no number is stored twice and the request repeats none of its numbers, a successful create still stores no number twice |
| `Handlers.CreateRepeatedNumber` | app.js:21-50 | a request `["111", "111"]` on an empty store returns 200 and leaves "111" stored twice |
| `Handlers.DeletedNumbersStayTaken` | app.js:21-26 | after a DELETE, a POST that offers a number the deleted contact owned is refused with 400, because that contact's phone rows remain |
| `Handlers.Delete` | app.js:61-76 | 200 "Contact deleted successfully" exactly when one row carried the key (affectedRows === 1), 404 "Contact not found" otherwise; afterwards no row carries the key, every other row survives, and `phone_numbers` is untouched |
| `Handlers.DeleteOutcome` | app.js:64-71 | on a valid store: 404 exactly when no contact has the key, and then the store is unchanged; on 200 exactly that key leaves the key set; the store stays valid and every other key finds the same contact |
| `Handlers.Update` | app.js:132-171 | 404 "Contact not found" exactly when no contact has the key, and then the store is unchanged; otherwise 200 "Contact updated successfully" with the key set and counter unchanged |
| `Handlers.UpdateKeepsValid` | app.js:138-164 | PUT keeps a valid store valid |
| `Handlers.UpdateFields` | app.js:147-151 | on an existing contact the stored row keeps its key and takes the supplied name (email) when it is truthy and the stored one when it is absent or empty; every other key finds the same row as before |
| `Handlers.UpdatePhones` | app.js:154-164 | on an existing contact its numbers become the supplied list when that is non-empty; the phone table is untouched when the list is absent or empty; every other contact's numbers are unchanged |
| `Handlers.UpdateSkipsDuplicateCheck` | app.js:154-164 | PUT on a store where "111" belongs to contact 0 gives contact 1 the number "111" with status 200, so the number ends up stored twice |
| `Handlers.List` | app.js:79-95 | one entry per contact row, in table order, each with that row's key, name and email and exactly the numbers `phone_numbers` holds for the key, in row order |
| `Handlers.ListCoversStore` | app.js:79-90 | on a valid store the list is in strictly ascending key order (so every key once); a contact is in the table exactly when its entry, with its own numbers, is in the list; every entry names a stored contact |
| `Handlers.ListAfterCreate` | app.js:40-50 | after a successful create the list is the previous list with the new contact and its supplied numbers appended |
| `Handlers.ListAfterDelete` | app.js:64-65 | after a delete the list is the previous list without the entries for that key |
| `Handlers.ListAfterUpdate` | app.js:147-164 | after updating an existing contact the list is the previous list with that contact's entry replaced by its new name, email and numbers |
| `Tables.Find` | app.js:138-141 | the lookup finds nothing exactly when no row has the key, and otherwise returns a stored row with that key |
| `Tables.FindUnique` | app.js:138-147 | with unique keys, the row the lookup returns is the one stored contact with that key |
| `Tables.CountAscending` | app.js:65-67 | with unique keys a delete affects one row when the key exists and none otherwise |
| `Tables.Without` | app.js:64-65 | the surviving rows are exactly the rows without the key, and their number plus the affected count is the old row count |
| `Tables.WithoutOwner` | app.js:156-157 | after deleting a contact's phone rows the contact reads back no numbers, every other contact reads back the same numbers, and exactly the other contacts' rows survive |
| `Tables.PhonesOf` | app.js:85-87 | a number is read back for a key exactly when some phone row stores it for that key, and no more numbers are read back than the table has rows |
| `Tables.PhonesOfMember` | app.js:85-87 | every number stored for a key is among the numbers read back for it |
| `Tables.SetFields` | app.js:150-151 | the table keeps its length and keys; every row with the key takes the new name and email, and every other row is unchanged in place |
| `Tables.RowsFor` | app.js:47-50 | the inserted rows are one per supplied number, in list order, each owned by the contact (the same inserts PUT issues at lines 160-163) |
| `Tables.PhonesOfRowsFor` | app.js:47-50 | the rows inserted for a list of numbers read back as exactly that list for their key and as nothing for any other key |
| `Search.JoinOf` | app.js:102-104 | every join row pairs a stored contact with one of its stored numbers, or with `NULL` when the contact owns no phone row; every stored contact-number pair gives a row, and so does every contact without phone rows |
| `Search.JoinNullRow` | app.js:102-104 | a contact that owns no phone row has a join row with a `NULL` phone, and every join row with its key has a `NULL` phone |
| `Search.Filter` | app.js:101-107 | a row survives the `WHERE` clause exactly when it is a join row and satisfies the condition |
| `Search.IndexOf` | app.js:113-117 | the lookup returns the first entry with the key, or one past the end when no entry has it |
| `Search.Absorb` | app.js:111-119 | one loop step: a new entry, named as the row, exactly when no entry has the row's key; afterwards the key has an entry, which gains the row's phone when it is truthy; every other entry, and every entry's key, name and email, stays in place |
| `Search.Group` | app.js:110-121 | the loop's result is the reference grouping: one entry per distinct key in order of first appearance, named as the key's first row, holding the key's truthy phones in row order |
| `Search.GroupCorrect` | app.js:110-121 | the grouping loop yields one entry per distinct key in order of first appearance; each entry carries its key's first row's name and email and that key's truthy phone values in row order |
| `Search.SearchContacts` | app.js:98-128 | no key is reported twice; every entry is a stored contact under its own name and email; every number an entry holds is non-empty and stored for that contact |
| `Search.SearchEntriesAreContacts` | app.js:101-121 | on a valid store no key appears twice in a search result; every entry is the stored contact the key finds; every number it holds is stored for that contact, and the condition held of the join row pairing the contact with that number |
| `Search.SearchFindsContact` | app.js:107-121 | if the condition holds of any join row, whatever its phone, the result has an entry for that row's key |
| `Search.SearchFindsBareContact` | app.js:110-121 | a contact without phone rows whose `NULL`-phone row satisfies the condition is returned with an empty list of numbers |
| `Search.SearchFindsNumber` | app.js:101-119 | if the condition holds of the row pairing a contact with a non-empty number it owns, the result holds that contact with that number among its numbers |
| `Search.SearchAllIsList` | app.js:110-121 | with a condition that holds of every row, on a valid store with no empty-string number, search returns exactly what GET /contacts returns |
| `CsvExport.Export` | app.js:174-204 | one record per contact row, in table order, with the row's key, name and email and the contact's numbers, in row order, joined by `", "` |
| `CsvExport.SplitJoin` | app.js:195 | splitting the `", "`-joined field gives back the numbers whenever none is empty or contains a comma |
| `CsvExport.ExportMatchesList` | app.js:187-196 | the export has one record per listed contact, in the same order, with the same key, name and email and the listed numbers joined by `", "` |
| `CsvExport.ExportRoundTrip` | app.js:187-196 | when no stored number is empty or contains a comma, splitting each record's `phone_numbers` field gives back that contact's listed numbers |

## Left out

- Express routing, `cors`, JSON body parsing and `app.listen`: HTTP plumbing. A request arrives as a typed datatype. JSON values that are not strings or arrays (a number as a name, a string as `phoneNumbers`) are not modelled.
- The path parameter `:id` is a string that MySQL converts to a number. The model takes the key as a natural number, so that conversion is left out.
- `db.js` and the SQL engine: the tables are sequences, and each statement is a function over them. `insertId` is the store's AUTO_INCREMENT counter.
- The generic 500 path for database failures, and `console.error`: infrastructure failures with no atomicity guarantee in the code. The one 500 that the handler's own code causes is modelled: POST without `phoneNumbers` throws in `phoneNumbers.map` before any query.
- POST with a missing name or email: the driver rejects an undefined bind parameter, and the driver is not part of this model. Name and email of POST are always strings here.
- Handlers.Create: compares numbers by exact string equality, not by MySQL collation rules (case and trailing spaces).
- Search.SearchContacts: the `LIKE '%term%'` match and its collation-dependent case sensitivity are an abstract `matches` condition on join rows.
- Search.SearchContacts: the join rows come contact by contact in key order, each contact's phone rows in insertion order. SQL guarantees no order without `ORDER BY`, so this is an assumption about the engine.
- Handlers.List: the order of the entries, and of each entry's numbers, is ascending key order and insertion order only under the same assumption about `SELECT` without `ORDER BY`; `Handlers.ListCoversStore`'s ordering clause and `Tables.PhonesOf`'s row order rest on it too.
- CsvExport.Export: the record order and the order of the joined numbers rest on the same assumption, and so does `CsvExport.ExportMatchesList`'s record-for-record match.
- Handlers.CreateRepeatedNumber: assumes `phone_numbers.phone_number` has no UNIQUE index, which "stored twice" needs. With such an index the second insert (app.js:49) fails and the handler answers 500 (app.js:54-56). Nothing wraps the writes in a transaction, so the contact row and the first number stay written. That partial write is not modelled; the schema is not part of this model.
- Handlers.UpdateSkipsDuplicateCheck: makes the same assumption. With a UNIQUE index the insert at app.js:162 fails and the handler answers 500 (app.js:167-169), after app.js:157 has already deleted the contact's old numbers and the new name and email are written. That partial write is not modelled either.
- `Promise.all` over the duplicate checks, and any interleaving of concurrent requests: each handler is one atomic transition.
- `fast-csv` quoting, escaping and streaming; the rendering of `id` as decimal text; the `Content-Disposition` and `Content-Type` headers. The export is the sequence of records written.
- The CSV header line: the formatter takes it from the keys of the first record written, so an export of no contacts writes none. The model has the records only.
- Handlers.Delete: the model assumes `phone_numbers.contact_id` has no foreign key at all. Under a restricting key (MySQL's default), deleting a contact that owns phone rows would fail and the handler would answer 500 (app.js:72-74); under a cascading key the phone rows would go too. The schema is not part of this model.
- The unused `multer` and `fs` imports.
- `tests/contacts.test.js` and `tests/contacts.integration.test.js`: they run against a live server and database. Their expected message for POST ("Contact created successfully") is the one `Handlers.Create` returns.
