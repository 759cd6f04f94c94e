# Rajasthan trip hotel voting — a Dafny model

The repository is a small web app. A group planning a trip to Rajasthan uses it
to rate candidate hotels city by city, export their picks to CSV, and see a
results tab with everyone's votes. A JSON document holds the catalogue of cities
and hotels, and a Postgres schema mirrors it. This project models that core in
Dafny 4.11 and proves properties of the model.

- **HotelsRoute** models the admin hotel routes: POST adds a hotel, PUT merges
  updates, DELETE removes one. Each is a method on the loaded `Catalog.Document`,
  proved equal to a specification function. Lemmas about those functions cover:
  - when each request succeeds;
  - that failures write nothing;
  - first-match semantics;
  - that PUT is idempotent;
  - that DELETE undoes POST.
- **VotesRoute** models the in-memory vote store as a class with a `store` map
  field. GET returns it. POST validates the request, initialises the entry,
  appends the vote and updates the count and total. A consistency invariant ties
  `count` and `totalRating` to the stored votes, and POST preserves it.
- **VotesReset** models the DELETE of one person's selections from the `votes`
  table. The two query branches depend on whether a device id is given. The
  model also proves the deleted count, order preservation and idempotence.
- **PageScores**, **PageResults** and **PageCsv** model the browser page's pure
  logic:
  - the nested score map and its default;
  - the progress counters and the rated list sent by *submit all*;
  - the search filter;
  - the results object;
  - the sort by votes (a permutation, descending and stable, as `Array.prototype.sort` is);
  - the CSV rows and their quoting. A reader lemma recovers every row the
    writer quotes.
- **DbClient** models `getAllData`. It rebuilds the JSON shape from table rows:
  a per-city filter, `null`/empty normalisation, a default config, and the
  object spread.
- **DbInit** models how a schema file is split into statements. It also gives a
  corrected variant that removes comment lines first (see Findings).
- **AddHotel** models the interactive add-hotel script. This includes the id
  slug `toLowerCase().replace(/[^a-z0-9]+/g, '-')`, whose shape and
  idempotence are proved.
- **CopyJodhpur** models the script that copies Jodhpur Day 1's hotels to
  Day 2. The model proves that the copies are faithful and their new ids distinct.
- **RenameCities** models the script that renames the cities containing
  "jaipur" or "jodhpur" to "… Day 1" and "… Day 2".

Shared modules:

| Module | Contents |
|---|---|
| `Wrappers` | `Option` |
| `Text` | JavaScript's `trim`, ASCII `toLowerCase`, `includes`, `startsWith`, one-character `split` and `join`, and `String(n)` for integers |
| `Catalog` | The JSON document |
| `Db` | The tables as sequences of rows, in the order a query returns them |

JavaScript truthiness is written out. A request string is `Option<string>`, and
it is falsy when it is absent, `null` or `""`. A price is `Option<int>`, and it
is falsy when it is `null` or 0.

The parts the code receives from outside are parameters:

| Source | Becomes |
|---|---|
| Clocks (`Date.now()`, `new Date().toISOString()`) | a function or a string |
| `Math.random()` in the generated hotel id | the id itself |
| `encodeURIComponent` | a function |
| The prompts' answers | strings |

## Model

| member | source | states |
|---|---|---|
| HotelsRoute.FirstCity | src/app/api/hotels/route.ts:39-43 | `find` by id as an index: the first city with that id, and -1 exactly when none has it |
| HotelsRoute.FirstHotel | src/app/api/hotels/route.ts:83-87 | `findIndex` by id: the first hotel with that id, and -1 exactly when none has it |
| HotelsRoute.FindCity | src/app/api/hotels/route.ts:39-43 | the linear search returns the first matching index (-1 when none) |
| HotelsRoute.FindHotel | src/app/api/hotels/route.ts:123-127 | the linear search returns the first matching index (-1 when none) |
| HotelsRoute.Post | src/app/api/hotels/route.ts:29-64 | the document and reply after POST are those `PostSpec` computes: 400 on missing `cityId` or `hotel.name`, 404 on an unknown city, otherwise the new hotel appended |
| HotelsRoute.Put | src/app/api/hotels/route.ts:67-103 | the document and reply after PUT are those `PutSpec` computes: 400 on a missing parameter, 404 on an unknown city or hotel, otherwise `{...hotel, ...updates, id}` stored in place |
| HotelsRoute.Delete | src/app/api/hotels/route.ts:106-137 | the document and reply after DELETE are those `DeleteSpec` computes: 400, 404, or the hotel spliced out and returned |
| HotelsRoute.FailuresChangeNothing | src/app/api/hotels/route.ts:34-43 | every 400/404 reply of POST, PUT or DELETE leaves the document exactly as it was |
| HotelsRoute.PostSucceedsIff | src/app/api/hotels/route.ts:34-43 | POST succeeds if and only if `cityId` and `hotel.name` are non-empty and a city has that id |
| HotelsRoute.PostAppendsOne | src/app/api/hotels/route.ts:46-56 | a successful POST appends one hotel with the generated id to the first matching city only; every other city and hotel is unchanged |
| HotelsRoute.NewHotelFields | src/app/api/hotels/route.ts:46-54 | the new record keeps the name, turns a falsy price into null and a missing image, link or notes into `''` |
| HotelsRoute.PutDeleteSucceedIff | src/app/api/hotels/route.ts:72-87 | PUT and DELETE succeed if and only if both ids are non-empty (and PUT's `updates` is present), the city exists and it holds a hotel with that id |
| HotelsRoute.PutReplacesFirstMatch | src/app/api/hotels/route.ts:90-94 | a successful PUT changes only the first matching hotel of the first matching city, into the merge of old record and updates with the id kept; the list length is unchanged |
| HotelsRoute.PutEmptyUpdatesChangesNothing | src/app/api/hotels/route.ts:90-94 | merging an empty `updates` object leaves the document as it was |
| HotelsRoute.PutIdempotent | src/app/api/hotels/route.ts:90-94 | repeating the same PUT gives the same document and reply |
| HotelsRoute.DeleteRemovesFirstMatch | src/app/api/hotels/route.ts:129-132 | a successful DELETE removes exactly the first matching hotel, keeps the others in order, and returns the removed record |
| HotelsRoute.DeleteUndoesPost | src/app/api/hotels/route.ts:46-56 | deleting the hotel a POST just added, under a fresh id, restores the document |
| HotelsRoute.FirstCityIgnoresHotels | src/app/api/hotels/route.ts:39-43 | replacing a city's hotels does not change which city a search finds |
| HotelsRoute.FirstHotelAfterUpdate | src/app/api/hotels/route.ts:83-94 | after a PUT that keeps the id, the search still finds the same index |
| HotelsRoute.FirstHotelAppended | src/app/api/hotels/route.ts:56 | a hotel appended under a fresh id is found at the last index |
| HotelsRoute.FirstHotelIs | src/app/api/hotels/route.ts:83-87 | the search returns any index holding the id with no earlier match |
| VotesRoute.MakeVoteIsNamed | src/app/api/votes/route.ts:37-42 | a stored vote always has a non-empty name: the given one when truthy, and "Anonymous" exactly when no name is given or that is the name given; rating, occupancy and timestamp are kept |
| VotesRoute.SumRatingsAppend | src/app/api/votes/route.ts:46 | appending a vote adds its rating to the sum |
| VotesRoute.VoteStore.constructor | src/app/api/votes/route.ts:5 | the store starts empty |
| VotesRoute.VoteStore.Get | src/app/api/votes/route.ts:7-14 | GET returns the store itself, and every entry is consistent |
| VotesRoute.VoteStore.Post | src/app/api/votes/route.ts:16-46 | a missing `cityId`, `hotelId` or `rating` answers 400 and changes nothing; otherwise the vote is appended to the (possibly new) entry and returned, and count and total follow |
| VotesRoute.RecordPreservesConsistency | src/app/api/votes/route.ts:44-46 | after a vote, every entry's `count` is still its number of votes and `totalRating` their sum |
| VotesRoute.RecordAppendsToOneEntry | src/app/api/votes/route.ts:28-46 | a vote changes one entry: its votes gain the new vote at the end, count grows by one and the total by the new rating; all other cities and hotels are unchanged |
| VotesRoute.FirstVoteStartsEmpty | src/app/api/votes/route.ts:29-34 | a hotel's first vote creates the entry `{votes:[vote], totalRating: rating, count: 1}` |
| VotesRoute.RepeatVotesAreKept | src/app/api/votes/route.ts:44-46 | two votes for the same hotel are both kept, in order; no vote replaces an earlier one |
| VotesReset.Reset | src/app/api/votes/reset/route.ts:9-38 | a falsy name answers 400 and deletes nothing; otherwise exactly the rows the branch's WHERE clause selects are deleted, and their number is reported |
| VotesReset.SurvivorsAreTheNonMatching | src/app/api/votes/reset/route.ts:18-32 | a row survives if and only if the WHERE clause does not select it; survivors plus deleted make up the table |
| VotesReset.SurvivorsKeepOrder | src/app/api/votes/reset/route.ts:18-32 | the delete works row by row: the surviving rows keep their order and counts add up |
| VotesReset.ResetIsIdempotent | src/app/api/votes/reset/route.ts:18-37 | resetting twice leaves the same table, and the second reset deletes 0 rows |
| VotesReset.DeviceScopesTheDelete | src/app/api/votes/reset/route.ts:18-31 | only selected rows of that voter are deleted; with a device id only that device's, without one only rows whose device is NULL |
| PageScores.GetScoreDefaultsToZero | src/app/page.tsx:337 | a pair with nothing stored scores 0 |
| PageScores.SetScoreChangesOneEntry | src/app/page.tsx:338-340 | `setScore` is read back by `getScore` and changes no other city or hotel |
| PageScores.PicksInExactly | src/app/page.tsx:398-404 | a city's picks are exactly its hotels with a positive score, with that score |
| PageScores.PicksExactly | src/app/page.tsx:398-404 | the rated list contains exactly every hotel of every city whose score is positive, and is no longer than the catalogue |
| PageScores.PicksInCatalogOrder | src/app/page.tsx:398-404 | the rated list follows the catalogue's city order |
| PageScores.RatingProgress | src/app/page.tsx:343-351 | the progress counters: total is the number of hotels, rated the number with a positive score; rated never exceeds total |
| PageScores.CollectRated | src/app/page.tsx:398-404 | the nested loop pushes one `{cityId, hotelId, rating}` request per pick, in catalogue order |
| PageScores.RequestsAppend | src/app/page.tsx:402 | pushing one more pick adds one request at the end |
| PageScores.SubmittedRatingsPassValidation | src/app/page.tsx:372-402 | for a catalogue whose city and hotel ids are non-empty, every rating the page submits is accepted by POST /api/votes' validation (an add-hotel name with an empty slug gives an id of `""`, whose vote is refused) |
| PageScores.FilteredHotelsExactly | src/app/page.tsx:331-335 | an empty trimmed query shows every hotel; otherwise exactly the hotels whose lowercased name or notes contain the trimmed lowercased query |
| PageScores.MatchingExactly | src/app/page.tsx:334 | the filter keeps exactly the matching hotels |
| PageScores.MatchingKeepsOrder | src/app/page.tsx:334 | the filter keeps the hotels' order |
| PageResults.ResultsData | src/app/page.tsx:608-631 | the nested loops build the results object `ResultsFor` describes, each city starting from `{}` |
| PageResults.CityResultsCover | src/app/page.tsx:612-627 | a city's entry has a key for exactly its hotels' ids, each equal to that hotel's tally or the zero entry |
| PageResults.ResultsKeys | src/app/page.tsx:610-611 | the results object has a key for exactly the cities' ids |
| PageResults.ResultsAt | src/app/page.tsx:608-631 | with distinct city ids, a city's key holds the map built from that city's own hotels, whatever other cities are listed |
| PageResults.ResultsCoverEveryHotel | src/app/page.tsx:608-631 | with distinct city ids, every hotel of every city has its entry, with the tally's count and votes or `0` and `[]` |
| PageResults.ResultsAgreeWithTally | src/app/page.tsx:613-618 | for a consistent vote store, `numVotes` equals the number of votes shown |
| PageResults.InsertPermutes | src/app/page.tsx:635 | inserting into the sorted copy adds one element and loses none |
| PageResults.InsertKeepsDescending | src/app/page.tsx:642-643 | inserting keeps the copy ordered by vote count, most first |
| PageResults.InsertKeepsTies | src/app/page.tsx:635-643 | an inserted hotel goes before every hotel with the same vote count that was already in the copy |
| PageResults.SortPermutes | src/app/page.tsx:635 | the sorted copy is a permutation of the city's hotels |
| PageResults.SortDescends | src/app/page.tsx:642-643 | the sorted copy is ordered by vote count, most first |
| PageResults.SortIsStable | src/app/page.tsx:635-643 | hotels with equal vote counts keep their original order |
| PageResults.SortByVotesCorrect | src/app/page.tsx:634-643 | `getSortedHotels` with sort "votes" is a stable, descending permutation of the hotels by `numVotes`, 0 for a hotel without an entry |
| PageCsv.Row | src/app/page.tsx:594 | a row has as many fields as the header |
| PageCsv.RowsExactly | src/app/page.tsx:591-596 | the k-th data row is the row of the k-th pick: name, city, hotel, score, occupancy, the price for that occupancy and the link |
| PageCsv.RowsConcat | src/app/page.tsx:591-596 | rows follow the picks city by city |
| PageCsv.RowsAppend | src/app/page.tsx:594 | a push adds the one row at the end |
| PageCsv.ExportRows | src/app/page.tsx:590-596 | the nested loops build the header and then one row per pick, in catalogue order |
| PageCsv.CityRows | src/app/page.tsx:592-595 | the inner loop pushes one row per rated hotel of the city, in order |
| PageCsv.QuoteAll | src/app/page.tsx:597 | each field of a row is replaced by its quoted form, in order, none added or dropped |
| PageCsv.Lines | src/app/page.tsx:597 | the k-th row becomes the k-th line, its quoted fields joined with "," |
| PageCsv.ExportCsv | src/app/page.tsx:589-597 | the exported text is the header and the rows, quoted, joined with "," and "\n" |
| PageCsv.ReadQuoted | src/app/page.tsx:597 | the reader of a quoted field always consumes input |
| PageCsv.ReadRecord | src/app/page.tsx:597 | the reader of a line always consumes input |
| PageCsv.ReadDoubledQuote | src/app/page.tsx:597 | a doubled quote inside a field reads back as one quote |
| PageCsv.ReadPlainChar | src/app/page.tsx:597 | any other character inside a field reads back as itself |
| PageCsv.QuoteRoundTrip | src/app/page.tsx:597 | the `replaceAll('"','""')` escaping reads back as the original field |
| PageCsv.ReadFieldThen | src/app/page.tsx:597 | a quoted field is followed by the end of the text, a line break or a comma and the next field |
| PageCsv.LastFieldRoundTrip | src/app/page.tsx:597 | the last quoted field of a line reads back as a one-field record, followed by the next line if there is one |
| PageCsv.ReadFieldThenRecord | src/app/page.tsx:597 | a field, a comma and any readable record read back as one record with that field in front |
| PageCsv.LineCons | src/app/page.tsx:597 | a line is the first quoted field, then a comma and the rest |
| PageCsv.LineRoundTrip | src/app/page.tsx:597 | one quoted line reads back as its fields, whatever characters they hold |
| PageCsv.CsvRoundTrip | src/app/page.tsx:597 | the whole CSV reads back as the rows written, commas, quotes and line breaks inside fields included |
| PageCsv.ExportReadsBack | src/app/page.tsx:589-597 | the exported CSV reads back as the header followed by one row per pick |
| DbClient.NormalizeNeverNull | src/db/client.ts:64-72 | no null reaches the page: link, image and notes are always present, each the row's own value when there is one and `''` exactly when the row's is null or empty; id, name and prices are kept |
| DbClient.SpreadOverridesCities | src/db/client.ts:93-96 | `{...config, cities}` equals the config object with `cities` overridden by the computed list; the spread itself never carries a `cities` key |
| DbClient.HotelsOfConcat | src/db/client.ts:62-63 | the filter keeps the rows' order |
| DbClient.HotelsOfExactly | src/db/client.ts:62-72 | a city's hotels are exactly the normalised rows with its id |
| DbClient.OrphanRowsAppearNowhere | src/db/client.ts:62-63 | a hotel row whose `city_id` matches no city is left out of the result |
| DbClient.CitiesCarryTheirRows | src/db/client.ts:58-72 | one city per city row (`|cities| == |cityRows|`); the i-th city has the i-th row's id, name and dates, and holds exactly the normalised hotel rows whose `city_id` is its id |
| DbClient.DefaultConfigWhenMissing | src/db/client.ts:75-91 | with no config row, or a falsy value, the built-in defaults are used |
| DbInit.Trimmed | src/db/init.ts:21 | trimming keeps the number of pieces |
| DbInit.TrimmedAt | src/db/init.ts:21 | each piece is trimmed |
| DbInit.KeptExactly | src/db/init.ts:22 | the filter keeps exactly the non-empty pieces that do not start with "--" |
| DbInit.KeptConcat | src/db/init.ts:22 | the filter keeps the pieces' order |
| DbInit.KeptAtMost | src/db/init.ts:22 | the filter never adds pieces |
| DbInit.KeptTrimmedExactly | src/db/init.ts:21-22 | trimming then filtering keeps a text exactly when it is some chunk trimmed, non-empty and not starting with "--" |
| DbInit.SplitStatementsExactly | src/db/init.ts:19-22 | the statements are exactly the trimmed ';'-separated pieces that are non-empty and do not start with "--" |
| DbInit.SplitStatementsWellFormed | src/db/init.ts:19-22 | no statement is empty, contains ';', starts with "--" or has whitespace at either end |
| DbInit.SplitStatementsCount | src/db/init.ts:19-22 | there are at most one more statements than semicolons |
| DbInit.CommentChunkDropped | src/db/init.ts:22 | a piece that starts with "--" is dropped |
| DbInit.TrimStartsWithComment | src/db/init.ts:21-22 | trimming keeps a leading "--" |
| DbInit.CommentChunkFirst | src/db/init.ts:21-22 | a leading comment piece contributes no statement |
| DbInit.LeadingCommentSwallowsStatement | src/db/init.ts:19-22 | a piece that starts with a comment line is dropped whole, with any statement after the comment before the next ';' |
| DbInit.CommentedStatementLost | src/db/init.ts:19-22 | as written, a comment line followed on the next line by a statement, before the next ';', contributes nothing: the statements are those of the rest of the text |
| DbInit.CommentedSchemaIsEmpty | src/db/init.ts:19-22 | as written, a schema of one commented statement yields no statement at all |
| DbInit.NoStatementsInEmptyText | src/db/init.ts:19-22 | an empty schema yields no statement |
| DbInit.StripCommentsKeepsCode | src/db/init.ts:19-22 | removing comment lines leaves a chunk without comment lines as it is |
| DbInit.StripLeadingComment | src/db/init.ts:19-22 | removing comment lines turns a comment line followed by a statement into the statement |
| DbInit.CodeStatementsAgree | src/db/init.ts:19-22 | when no line is a comment, the corrected splitting gives the same statements as the code |
| DbInit.CommentedStatementKept | src/db/init.ts:19-22 | in the corrected splitting, the statement after a comment line is kept, trimmed, before the statements of the rest |
| AddHotel.SkipRun | scripts/add-hotel.js:54 | skipping a run drops only characters outside `[a-z0-9]` and stops at one inside |
| AddHotel.CollapseShape | scripts/add-hotel.js:54 | the replace yields only `[a-z0-9]` and '-', never "--", empty exactly for the empty text, and starts with the first character or '-' |
| AddHotel.CollapseLast | scripts/add-hotel.js:54 | the id ends in '-' exactly when the text ends outside `[a-z0-9]` |
| AddHotel.SkipRunDropsNoSlugChar | scripts/add-hotel.js:54 | a skipped run holds no letter or digit |
| AddHotel.CollapseKeepsSlugChars | scripts/add-hotel.js:54 | the replace keeps every letter and digit, in order |
| AddHotel.CollapseFixed | scripts/add-hotel.js:54 | the replace leaves an id unchanged |
| AddHotel.LowerOfSlugShape | scripts/add-hotel.js:54 | lowercasing leaves an id unchanged |
| AddHotel.SlugShape | scripts/add-hotel.js:54 | the id of a name uses only `[a-z0-9-]`, has no "--", keeps the lowercased name's letters and digits in order, and begins or ends with '-' exactly when the lowercased name does so outside `[a-z0-9]` |
| AddHotel.SlugIdempotent | scripts/add-hotel.js:54 | making an id out of an id changes nothing |
| AddHotel.NewHotelDefaults | scripts/add-hotel.js:57-65 | the id is the slug and name and prices are kept; the link is null exactly when none is typed; the image is the typed URL exactly when one is typed, else a URL starting with the Unsplash base; the notes are kept |
| AddHotel.Add | scripts/add-hotel.js:34-68 | the document after the script is the one `AddSpec` computes: unchanged on an invalid number, otherwise the new hotel appended to the chosen city |
| AddHotel.AddAppendsToChosenCity | scripts/add-hotel.js:34-68 | the selection is accepted exactly for numbers 1 to the number of cities; then only the chosen city changes, gaining the new hotel at the end |
| AddHotel.NoDuplicateCheck | scripts/add-hotel.js:54-68 | adding the same name twice gives two hotels with the same id in one city |
| CopyJodhpur.DayCities | src/db/copy-jodhpur-hotels.ts:13-17 | the `LIKE 'Jodhpur Day%'` query returns exactly the cities whose name starts with "Jodhpur Day", and no more rows than the table has |
| CopyJodhpur.FindByName | src/db/copy-jodhpur-hotels.ts:24-25 | `find` by exact name returns the first row with that name, and nothing exactly when no row has it |
| CopyJodhpur.CharSlugShape | src/db/copy-jodhpur-hotels.ts:64 | the name piece of a new id has the name's length, uses only `[a-z0-9-]`, keeps each character that lowercases into `[a-z0-9]`, and making it again from itself changes nothing |
| CopyJodhpur.Copy | src/db/copy-jodhpur-hotels.ts:13-81 | the script inserts exactly the rows `CopySpec` computes, changes no other table, and reports exit code and count |
| CopyJodhpur.CopyAll | src/db/copy-jodhpur-hotels.ts:60-81 | the loop inserts one copy per source hotel, in order, changes no other table, and counts every insert |
| CopyJodhpur.CopyGuards | src/db/copy-jodhpur-hotels.ts:19-48 | fewer than two day cities or a missing Day 1 or Day 2 exits with 1 and inserts nothing; an empty source exits with 0 and inserts nothing |
| CopyJodhpur.CopiesAreFaithful | src/db/copy-jodhpur-hotels.ts:36-78 | the k-th inserted row is a copy, into Day 2, of the k-th hotel of Day 1 |
| CopyJodhpur.HotelsOfExactly | src/db/copy-jodhpur-hotels.ts:36-41 | the source query selects exactly Day 1's hotels |
| CopyJodhpur.LastDash | src/db/copy-jodhpur-hotels.ts:64 | the index of the last '-' of an id, with no '-' after it, and -1 exactly when the id has no '-' |
| CopyJodhpur.LastDashBeforeTail | src/db/copy-jodhpur-hotels.ts:64 | the last '-' of an id is the one before the counter |
| CopyJodhpur.SameLastSegment | src/db/copy-jodhpur-hotels.ts:64 | equal ids have equal counter segments |
| CopyJodhpur.NoDashInNumber | src/db/copy-jodhpur-hotels.ts:64 | a rendered counter contains no '-' |
| CopyJodhpur.CopyIdsDistinct | src/db/copy-jodhpur-hotels.ts:61-80 | the ids inserted in one run are pairwise distinct, whatever the clock returns, because the count is appended |
| RenameCities.SetNameKeepsIds | src/db/rename-cities.ts:23 | an `UPDATE … WHERE id` keeps the row count, every id and date, renames exactly the rows with that id, and repeating it changes nothing |
| RenameCities.Update | src/db/rename-cities.ts:23 | the table after the update is `SetName` of the old table, and other tables are unchanged |
| RenameCities.Rename | src/db/rename-cities.ts:13-42 | the table after the script is `RenameSpec` of the old table: the Jaipur group, then the Jodhpur group, renamed; other tables unchanged |
| RenameCities.RenameGroupAt | src/db/rename-cities.ts:22-30 | renaming a group renames the row of the group's first id "… Day 1", of its second "… Day 2", and keeps every other row |
| RenameCities.RenameRule | src/db/rename-cities.ts:13-42 | a row's final name is Jodhpur's day name if it is among the first two Jodhpur matches, else Jaipur's if among the first two Jaipur matches, else its old name; id and dates are kept |
| RenameCities.MatchingExactly | src/db/rename-cities.ts:21 | the filter keeps exactly the rows whose lowercased name contains the word |
| RenameCities.UnmatchedRowsUnchanged | src/db/rename-cities.ts:21-42 | with distinct ids, a city whose name mentions neither word is unchanged |
| RenameCities.NotInGroup | src/db/rename-cities.ts:21 | with distinct ids, a non-matching row's id belongs to no matching row |
| RenameCities.FirstTwoMatchesRenamed | src/db/rename-cities.ts:22-30 | the first match is named "… Day 1", and the second "… Day 2" |
| RenameCities.MatchingIdsDistinct | src/db/rename-cities.ts:21 | the filter keeps ids distinct |
| RenameCities.LaterMatchesUntouched | src/db/rename-cities.ts:22-30 | with distinct ids, a third or later match is not renamed |
| Text.TrimStart | src/db/init.ts:21 | drops only leading whitespace, and stops at a non-whitespace character |
| Text.TrimEnd | src/db/init.ts:21 | drops only trailing whitespace, and stops at a non-whitespace character |
| Text.Trim | src/app/page.tsx:332 | `trim()` returns a text no longer than the input, with no whitespace at either end |
| Text.TrimKeepsOut | src/db/init.ts:21 | trimming adds no character: a character absent from the text is absent from the result |
| Text.Lower | src/app/page.tsx:332 | `toLowerCase()` maps each character on its own |
| Text.ContainsIff | src/app/page.tsx:334 | `includes` holds if and only if the query occurs at some index |
| Text.Split | src/db/init.ts:20 | `split` gives one more piece than separators, and no piece holds the separator |
| Text.SplitAfter | src/db/init.ts:20 | the text before the first separator is the first piece, followed by the pieces of the rest |
| Text.JoinSplit | src/db/init.ts:20 | joining the pieces with the separator restores the text |
| Text.NatToString | src/app/page.tsx:597 | `String(n)` has one digit below 10 and more above |
| Text.NatToStringDigits | src/app/page.tsx:597 | `String(n)` is all digits and ends in n's last digit |
| Text.NatToStringInjective | src/app/page.tsx:597 | distinct numbers render differently |
| Text.IntToStringInjective | src/app/page.tsx:597 | distinct integers render as distinct texts |
| Text.SignOfRendering | src/app/page.tsx:597 | `String(x)` starts with '-' exactly when x is negative |

## Findings

| source | as written | input that shows it | evidently intended | confidence | as-written member | corrected member |
|---|---|---|---|---|---|---|
| src/db/init.ts:19-22 | Each ';'-separated chunk is trimmed and dropped whole when it starts with "--". A comment line written above a statement therefore removes that statement. | the schema text "-- cities\nCREATE TABLE cities (id TEXT);" yields no statement | comment lines are skipped, and the statement below them is executed | medium, not executed | DbInit.CommentedStatementLost, DbInit.CommentedSchemaIsEmpty | DbInit.CommentedStatementKept, DbInit.CodeStatementsAgree |

The corrected splitting is `DbInit.CodeStatements`. It removes every line whose
trimmed text starts with "--" from each chunk before trimming and filtering.
On a schema without comment lines it agrees with the code. The schema file
itself is not part of this model, so whether it has such comments is open.

## Left out

- The GET of the hotels route only reads the file and returns it. File and database I/O are not modelled: the document and the tables are in memory.
- SQL `ORDER BY` clauses are not modelled. Queries return rows in the order given, and each model states its properties for any order.
- Primary-key and foreign-key constraints, a failing INSERT or UPDATE, `try/catch` and the 500 replies are left out, because errors from the database or the file system come from code outside this model.
- Concurrency is left out: concurrent requests racing on the in-memory store or the JSON file, and React state batching.
- Floating point is left out:
  - `avgRating` (src/app/api/votes/route.ts:47-48);
  - the progress percentage (src/app/page.tsx:352);
  - the "rating" sort case (src/app/page.tsx:640-641).
- Prices, ratings and occupancy are modelled as integers.
- HotelsRoute.Put: `updates` is modelled as the six fields of a hotel (name, prices, image, link, notes). A key outside these, such as `city_id`, is also written into the stored hotel by `{...hotel, ...updates, id}`, and the model does not capture that. Neither does it capture `updates.name = null`, which stores a null name: a hotel's name is always a string here. PutReplacesFirstMatch and PutIdempotent hold for the modelled fields only.
- VotesRoute.VoteStore.Post, PageScores.SetScore: ids are modelled as a map's own keys only. In the source, `votesStore` and `scores` are plain objects. An id that names an `Object.prototype` member, such as `"__proto__"` or `"toString"`, finds the inherited value, so the store is not initialised for it and the tally goes elsewhere. The model gives such an id an ordinary entry.
- RenameCities.Rename: the table sequence stands for the result of `ORDER BY name`. So "the first two matches" means the first two in name order.
- HotelsRoute.Post: the hotel id built from `Date.now()` and `Math.random()` (src/app/api/hotels/route.ts:47) is a parameter, so its format is not modelled.
- PageResults.SortByVotesCorrect: the "name" sort by `localeCompare` (src/app/page.tsx:644-645) is not modelled, because it depends on the locale's collation. The default case keeps the input order.
- Text.Lower: `toLowerCase` is modelled on ASCII letters only. Non-ASCII case mappings, such as 'İ' or the Kelvin sign, are left out.
- Number parsing is left out:
  - AddHotel.Add takes the city number as an integer, so the `NaN` from `parseInt` on non-numeric input is not modelled. With `NaN` the index test at scripts/add-hotel.js:36 lets the input through.
  - `parseFloat` of the prices is an `Option<int>`, with None for `NaN`.
  - VotesRoute.VoteStore.Post takes `rating` and `occupancy` as the numbers `Number(…)` gives. A numeric string such as "0" is truthy, but `Number("0")` is 0. That case is not separated.
- PageCsv.Row: `String(x)` of a field that is `undefined` and of one that is `null` are both rendered as `null`, because the model has one absent value. Scores and occupancy are integers.
- DbClient.Settings: a config value that is a non-object (an array or a string spreads index keys) gives no keys. Only objects are modelled.
- PageResults.ResultsCoverEveryHotel assumes distinct city ids. With a repeated id, a later city's entry replaces the earlier one, as in the code.
- `encodeURIComponent` is a function parameter and its escaping is not modelled.
- `process.exit`, the console, the prompts' I/O, `alert`, `fetch`, and the browser's `Blob` download are left out.
- The other database scripts (seed, migrate, migrate-to-selections, reset, fix-city-dates) and the rest of the page's rendering are not part of this model.
