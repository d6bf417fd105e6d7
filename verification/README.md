# Animal tracker: the request handler and the admin form logic

The animal tracker is a small web application that records animal observations
by geographic area: which species were seen in which area, and how many. This project models its two pieces of logic in Dafny
and proves properties of them.

**The JSON endpoint `animals.php`.** Each request is a pure function over an
in-memory store:

- the store holds two tables, `areas` and `animals`, each a sequence of rows;
- the function takes the store, the columns the `areas` table has, and the request
  (HTTP method, query-string parameters, decoded JSON body);
- it returns a status, a reply and the store afterwards.

The handler does the following:

- answers the CORS preflight (OPTIONS) first;
- resolves the area name column, preferring `area_name` to `name`;
- routes the six method/action pairs and gives 404 for any other;
- runs the three reads: `GET areas`, `GET animals` and `GET areasummary`;
- runs the three writes: `POST`, `PUT` and `DELETE animal`.

Each SQL statement becomes a selection, sum or sort over sequences. Auto-increment
ids come from a counter kept in the store.

**The pure helpers of the admin page `app-admin.js`:**

- `escapeHtml`;
- the area-name lookup `areaNameById`;
- the decision part of `submitForm`: alert and send nothing, or send a payload with
  POST or PUT.

Files (one module each):

- `optional.dfy`: `Option`.
- `text.dfy`: character classes, JavaScript `trim`, PHP's `(int)` cast, JavaScript
  `Number` on decimal text, and the ascending order on text.
- `sorting.dfy`: a generic sort with its permutation and sortedness lemmas.
- `tables.dfy`: the two tables, the store invariant `Valid`, name-column
  resolution, selection and sums.
- `queries.dfy`: the three reads.
- `writes.dfy`: the three writes.
- `api.dfy`: the handler `Handle`, its routing, and lemmas about single requests and
  sequences of requests.
- `admin.dfy`: the admin page helpers.

## Model

| member | source | states |
|---|---|---|
| Tables.ResolveNameColumn | animals.php:33-40 | the chosen column is one the table has; `name` is chosen only when `area_name` is absent; no column is chosen exactly when neither exists |
| Tables.Select | animals.php:70 | a `WHERE` keeps exactly the rows that meet the condition, and never more rows than the table has |
| Tables.SelectCounts | animals.php:70 | a `WHERE` keeps each matching row as many times as the table holds it, and no other row |
| Tables.SelectNoneMatching | animals.php:55-57 | when no row meets the join condition the selection is empty |
| Tables.TallyRecordsIsCount | animals.php:92 | `COUNT(*)` over a group is its number of rows |
| Tables.FindArea | animals.php:96-98 | the lookup by id gives an area with that id, and gives none exactly when no area has that id |
| Api.Handle | animals.php:8-158 | OPTIONS answers 200 before anything else; a missing name column gives 500 with its message; an unrouted pair gives 404 "Unknown endpoint."; every status is 200, 400, 404 or 500; a non-200 reply is an error that leaves the store unchanged; only the three writes change the store; the store invariant is kept |
| Api.Dispatch | animals.php:42-158 | once the column is resolved: status 200, 400 or 404; unrouted pairs give 404; errors write nothing; only writes change the store; the store invariant is kept |
| Queries.NameLeIsTotalPreorder | animals.php:59 | the ascending order on nullable text (NULL first) relates any two values and is transitive |
| Queries.AreaTotalsRows | animals.php:51-63 | `AreaTotals`, the `GET areas` result, has one row per area and each area's row is present; each row's `total_animals` is the sum of `count_est` over the animals of that area, and 0 when it has none |
| Queries.NoAnimalsZeroTotal | animals.php:55 | an area without animals totals 0, not NULL |
| Queries.AreaTotalsOnePerArea | animals.php:56-58 | with unique area ids no area id appears in two rows |
| Queries.AreaTotalsSorted | animals.php:59 | the rows are in ascending order of the resolved name |
| Queries.AnimalsInAreaFacts | animals.php:69-72 | in `AnimalsInArea`, the filtered `GET animals` listing, an animal is listed for area N exactly when it has `area_id` N, as many times as the table holds it (so each stored row once); the listing is sorted by common name |
| Queries.AreaNameFor | animals.php:76-78 | a joined area name comes from an area whose id is the animal's `area_id`; it is NULL when the animal has no area or its area does not exist |
| Queries.AreaNameForExisting | animals.php:76-78 | with unique area ids, an animal whose area exists is listed with that area's name |
| Queries.AllAnimalsRows | animals.php:75-82 | `AllAnimals`, the unfiltered `GET animals` listing, has one entry per animal and each animal appears; every entry carries its own area's name |
| Queries.AllAnimalsNewestFirst | animals.php:79 | the unfiltered listing is ordered by id, largest first, and strictly so when ids are unique |
| Queries.SpeciesOf | animals.php:92 | the `GROUP BY species` keys are distinct; each is the species of some animal, and every animal's species is among them |
| Queries.AreaInfoOf | animals.php:96-98 | the summary's `area` has the requested id and comes from an existing area; it is `None`, standing for the `false` PDO's `fetch` returns, exactly when no area has that id |
| Queries.BySpeciesRowsAreGroups | animals.php:92-94 | every row of `BySpecies`, the `GROUP BY species` result, sums and counts the animals of its own species, and that species occurs |
| Queries.BySpeciesCoversAnimals | animals.php:92-94 | every animal's species has its row |
| Queries.BySpeciesDistinct | animals.php:92-94 | no species has two rows |
| Queries.BySpeciesRows | animals.php:92-94 | exactly one row per distinct species, and each row aggregates that species' group |
| Queries.BySpeciesRecords | animals.php:92 | the `records` of all rows add up to the number of animals |
| Queries.BySpeciesHeadcount | animals.php:92 | the `total_count`s of all rows add up to the animals' summed `count_est` |
| Queries.BySpeciesSorted | animals.php:92 | the rows are ordered by `total_count`, largest first |
| Queries.BySpeciesTotals | animals.php:92 | the three facts above together |
| Queries.SummaryMatchesAreaTotal | animals.php:51-94 | an area's species breakdown sums to the `total_animals` that `GET areas` reports for it |
| Api.GetAreasReply | animals.php:46-64 | `GET areas` answers 200 with the area rows described above and writes nothing |
| Api.GetAnimalsReply | animals.php:67-85 | `GET animals` with a non-zero `area_id` (read by `Api.IntParam`) lists exactly that area's animals, each stored row once, by common name; otherwise it lists every animal once, newest id first; it writes nothing |
| Api.GetAreaSummaryReply | animals.php:88-101 | a zero or missing `area_id` (read by `Api.IntParam`) gives 400 "area_id required"; otherwise 200 with the stored area of that id, its name and description as stored (or `None`, the `false` of PDO's `fetch`, when no area has the id), and one row per species of the area's animals, each row holding its own species' sum and count; the `records` add up to the number of the area's animals and the `total_count`s to their summed `count_est`; rows are largest total first; it writes nothing |
| Writes.AddAnimal | animals.php:108-123 | an insert appends one row, with the next auto-increment id, after the unchanged existing rows; that id is new and the store invariant is kept |
| Writes.UpdateAnimal | animals.php:130-143 | an update overwrites every row with that id with the body's values and keeps every other row and every row's id; an id no row has changes nothing; the store invariant is kept |
| Writes.DeleteAnimal | animals.php:152-153 | a row survives a delete exactly when its id differs; an id no row has changes nothing; the store invariant is kept |
| Writes.AddThenUpdate | animals.php:108-144 | updating the row an insert just created gives the same table as inserting the update's values in the first place |
| Api.PostRejectsNonArray | animals.php:103-109 | a POST whose body does not decode to a PHP array (empty, invalid JSON, or a JSON scalar or null) gives 400 "Invalid JSON body" and writes nothing |
| Api.PostAppendsOneRow | animals.php:108-123 | a POST appends exactly one row built from the body and leaves existing rows alone; the returned `insert_id` is that row's id, which no earlier row has |
| Api.RecordDefaults | animals.php:114-122 | in `Writes.RecordFrom`, the row built from a body, a missing body member is stored as NULL, except `count_est`, which is stored as 0 |
| Api.PutRequiresId | animals.php:128 | a PUT without an array body, or with an empty or zero `id`, gives 400 "id required" and writes nothing |
| Api.PutOverwritesOnlyMatching | animals.php:127-145 | a PUT overwrites exactly the rows with that id, using the POST defaults, and keeps every other row; an id no row has succeeds and changes nothing |
| Api.DeleteRequiresId | animals.php:150-151 | a DELETE whose id (`Api.DeleteId`: the query string's, else the body's) is zero or missing gives 400 "id required" and writes nothing |
| Api.DeleteIdBeyondDoubles | animals.php:150-151 | a DELETE whose query-string id has more digits than a double can hold casts to 0 and is refused with 400 "id required" |
| Api.DeleteQueryIdWins | animals.php:150 | when the query string has an `id`, the body makes no difference to a DELETE |
| Api.DeleteRemovesOnlyMatching | animals.php:148-155 | a DELETE removes the rows with that id and keeps all others; deleting a missing id succeeds with no change; repeating it gives the same result |
| Api.PostThenListedOnce | animals.php:67-123 | after a POST, the unfiltered listing holds exactly one row with the returned id, and that row carries the submitted values |
| Api.PostPutRoundTrip | animals.php:67-145 | POST, then PUT with the returned id: the PUT succeeds, the area's listing shows the PUT's values, and no row with that id keeps the POST's |
| Api.SavannahPost | animals.php:108-123 | in an empty reserve with one area, recording a lion returns id 1 |
| Api.SavannahAreas | animals.php:46-64 | with a lion counted 5, the area's total is 5 |
| Api.SavannahPut | animals.php:127-145 | correcting the count to 7 overwrites the lion's row |
| Api.SavannahList | animals.php:67-85 | the area's listing then shows the corrected row |
| Api.SavannahScenario | animals.php:42-145 | the four steps above, chained |
| Text.PhpIntCast | animals.php:68 | the cast always gives a 64-bit integer, and gives 0 unless a digit follows the leading whitespace and optional sign |
| Text.CapLong | animals.php:68 | a digit run's value is kept when it fits in 64 bits, capped at the nearer 64-bit bound when it is a finite double, and 0 when it overflows the doubles |
| Text.PhpIntCastLeadingNumber | animals.php:68 | the decimal text of an integer, followed by text that starts no further digit, fraction or exponent, casts to that integer when it fits in 64 bits, to the nearer 64-bit bound when it is a finite double, and to 0 when it overflows the doubles |
| Text.PhpIntCastShowInt | animals.php:68 | casting the decimal text of a 64-bit integer gives that integer back |
| Text.Trim | app-admin.js:122 | the trimmed text is empty exactly when every character is whitespace; otherwise it starts and ends with a non-space |
| Text.JsNumber | app-admin.js:111 | `Number` of an empty or all-space string is 0 |
| Text.JsNumberShowInt | app-admin.js:111 | `Number` of an integer's decimal text is that integer, for integers of magnitude at most 2^53, which JavaScript represents exactly |
| Sorting.Sort | animals.php:59 | `ORDER BY` returns a permutation of the rows |
| Sorting.SortIsSorted | animals.php:59 | under a total preorder, the sorted rows are in order |
| Admin.ReplaceChainChar | app-admin.js:23-27 | on one character, the five replacements produce exactly that character's entity, or the character itself |
| Admin.ReplaceChainIsPerCharacter | app-admin.js:22-27 | `ReplaceChain`, the chain of global replacements, equals escaping each character on its own, so no entity is escaped twice |
| Admin.EscapeHtml | app-admin.js:20-28 | `null` and `undefined` give ""; a string is escaped character by character; a number gives its decimal text, which needs no escaping; the result contains no `<`, `>`, `"` or `'` |
| Admin.EscapeEachHasNoMarkup | app-admin.js:22-27 | the escaped text contains none of the characters `<`, `>`, `"` and `'` |
| Admin.EscapeEachPlain | app-admin.js:22-27 | text without any of the five special characters is returned unchanged |
| Admin.UnescapeEscapeHtml | app-admin.js:22-27 | decoding the five entities restores the original text, so escaping loses nothing |
| Admin.FindCached | app-admin.js:32 | `find` gives the first cached area whose numeric id equals the argument's, or none when no entry matches |
| Admin.AreaNameById | app-admin.js:30-34 | without a cache the argument comes back; with a cache, the first area with the same numeric id gives its name; otherwise the argument comes back |
| Admin.OrNull | app-admin.js:112-114 | `value \|\| null` is null exactly for an empty input and is the input otherwise |
| Admin.CountOf | app-admin.js:111 | the count is the input's number, or 0 when that is `NaN` |
| Admin.CountOfShowInt | app-admin.js:111 | an integer of magnitude at most 2^53 typed in decimal is sent as that integer |
| Admin.BuildPayload | app-admin.js:106-115 | `id` is omitted exactly when empty and sent as typed otherwise; `average_age_years`, `last_seen` and `notes` are null exactly when empty and sent as typed otherwise; the area, name and species are passed as typed; the count is numeric or 0 |
| Admin.SubmitForm | app-admin.js:103-145 | the form is refused exactly when the area is empty or the common name is blank; a missing area gives the select-area alert and a blank name the common-name alert; otherwise the payload is sent, by PUT exactly when the hidden id is filled in and by POST exactly when it is empty |

## Left out

- `config/db.php` is not part of this model. It opens the database connection; when that fails, db.php:19 answers the request itself with status 200 and the body `{"error": "Database connection failed", ...}`, before any routing. The model assumes the connection succeeds.
- Query-string parameters are modelled as text only. PHP's `$_GET` also holds arrays (`?id[]=99`), and `(int)` of a non-empty array is 1, so `DELETE ?action=animal&id[]=99` deletes the row with id 1 (animals.php:150) and `GET ?action=animals&area_id[]=5` lists area 1 (animals.php:68). Array-valued parameters are not modelled.
- Response headers, CORS strings and `json_encode` output (animals.php:3-6, 16-20) are not modelled. A reply is a datatype, not JSON text.
- Reading `php://input` and `json_decode` (animals.php:104-105) are not modelled. The body arrives already decoded:
  - `None` stands for a body that does not decode to a PHP array: empty, invalid JSON, or a JSON scalar or null. A JSON object decodes to a PHP array and is accepted.
  - Members are already typed.
  - A null member counts as absent, as PHP's `??` treats it.
  - A body `id` that is a non-numeric string is not modelled.
- The `information_schema` query (animals.php:25-33) is not modelled. The columns it finds are an input set.
- The exception handler (animals.php:160-162) is not modelled. The model assumes every statement succeeds. A real database can raise an error, for instance a foreign-key violation on `area_id`, and the handler then answers 500.
- Database collation is not modelled. Text is ordered and compared by code point, with NULL first. Under a case-insensitive collation, `GROUP BY species` would merge "Lion" and "lion"; the model keeps them apart.
- Sorting.SortIsSorted: the SQL result order among equal keys is unspecified. The sort lemmas therefore state "sorted and a permutation", not a tie order.
- Queries.AreaTotalsRows: gives one row per row of `areas`. If two areas shared an id, SQL's `GROUP BY a.id` would merge them. The store invariant `Valid` rules out shared ids.
- Text.PhpIntCast: handles whitespace, a sign and a digit prefix; a value outside 64 bits is capped, and one that overflows the doubles gives 0. A digit run that PHP reads through a double is not rounded to a double here; only the 64-bit cap and the overflow to 0 (from 2^1024 - 2^970 on) are modelled. Numeric strings with a fraction or an exponent are read up to the first non-digit, so `"1e3"` gives 1 where PHP 7.1 and later give 1000.
- Text.JsNumber: decimal integers only. Fractions, exponents, `Infinity`, hex, octal and binary forms are read as `NaN`. Every integer is read exactly, while JavaScript's IEEE doubles round integers beyond 2^53 (`Number("9007199254740993")` is 9007199254740992).
- Admin.EscapeHtml: takes `undefined`, `null`, integers and strings. A number is written as its full decimal digits, while JavaScript's `String` switches to exponent notation at magnitude 10^21. Fractions, booleans and objects are not modelled.
- `average_age_years` and `last_seen` are opaque optional text. No decimal or date arithmetic is modelled.
- Client I/O is not modelled: `safeFetch`, `fetch`, DOM rendering in `loadAreasSelect`, `loadRecords` and `editRecord`, `alert`/`confirm`, and the submit-button state.
- `app.js` and `index.php` are not modelled. They hold fetch wrappers and page markup only.
- Concurrency is not modelled. Requests are applied one at a time.
