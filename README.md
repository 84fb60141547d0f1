# answer-compare: a verified model of the question-clustering store

answer-compare lets several people upload screenshots of multiple-choice quizzes and compare
their answers. An extraction step turns each screenshot into items made of a question text, the
options and the chosen answers. The store (`src/db.js`) clusters near-identical questions into
*groups* by embedding similarity. It records each user's wording of a question as a *variant*,
keeps the options of each group as a set, and keeps one *answer key* per user and group. It then
lists every group with its answers, its variants and a conflict flag. The browser client
(`public/main.js`) keeps a queue of images waiting to be uploaded. It sorts the listed groups
into four sections and escapes every text before inserting it as HTML.

This project models that core in Dafny and proves what it promises.

- `text.dfy` (`Text`): JavaScript's `trim` with the exact whitespace class of `\s`, ASCII
  lower-casing, `join`, and string sorting in code-point order. Sorting is proved sorted, a
  permutation, and unique.
- `normalize.dfy` (`Normalize`): `normalizeQuestionText`. The leading `\s*\d+\s*[).:-]\s*`
  match is computed by a greedy scan, which is proved to find exactly the matches of the
  pattern. Normalization is proved idempotent exactly when its output does not itself start
  with an enumeration marker. Negative examples show it is not idempotent in general, and that
  a leading decimal number loses its integer part.
- `similarity.dfy` (`Similarity`): `cosineSimilarity` as a loop. The final division by the
  square roots stays an abstract function parameter. The scan of `findOrCreateGroupForQuestion`
  is proved to pick the first group with the largest score, and reuse is proved to happen
  exactly when some group reaches 0.97.
- `tables.dfy` (`Tables`): the five tables as sequences of rows in rowid order. It holds the
  schema constraints the code relies on and each SQL write as a function with its laws: for
  users, insert-or-ignore and lookup; for options, insert-or-ignore; for answers, the upsert.
- `answer_key.dfy` (`AnswerKeys`): the answer key `storeAnswer` writes. It keeps duplicates and
  does not depend on the order of the chosen answers.
- `join.dfy`, `fold.dfy`, `details.dfy`, `views.dfy`, `ordered_map.dfy`: the joined query as a
  function of the tables, the first loop of `listGroupsWithDetails` over JavaScript `Map`s and
  `Set`s (modelled as sequences of entries in insertion order), and the second loop building
  the views. The composition is proved equal to a direct description of each group's view in
  terms of the tables.
- `store.dfy` (`Store`): the class `QuestionStore` holding the five tables. Its methods are the
  exported functions of `src/db.js`, plus the per-item ingest sequence of the upload handler.
- `queue.dfy` (`UploadQueue`): the `queued` array and the three functions that change it, as a
  class with a sequence field.
- `render.dfy` (`Render`): the bucketing loop of `renderGroups`, the filter choosing which
  variants are shown, and `escapeHtml`. Escaping is proved safe and invertible.

Modelling conventions:

- A SQL NULL produced by a left join is modelled as 0 or "". Every use of such a column in the
  fold is behind a JavaScript truthiness test, where NULL, 0 and "" behave alike.
- The `chosenAnswers` and `options` values of an item are sequences of strings, or a single
  value. Missing or falsy elements are the empty string.
- `storeOptions` receives `None` for a non-array.
- A stored embedding is an array, valid JSON that is not an array, or text that does not parse.
- SQLite gives a new group the largest id plus one, or 1 on an empty table (there is no
  `AUTOINCREMENT`).
- The store keeps the invariant `Valid()`: distinct trimmed non-empty user names, ascending
  positive group ids, distinct trimmed non-empty options, and one answer per (group, user).
- The answers table declares `ON CONFLICT REPLACE` (src/db.js:53), but the upsert statement
  names its own conflict action (src/db.js:88), which SQLite applies instead. The answer row
  therefore keeps its place and takes the new key.
- The upload handler normalizes the question text (src/server.js:88), and
  `findOrCreateGroupForQuestion` normalizes it again (src/db.js:114). `IngestItem` composes the
  two normalizations, and `Normalize.NormalizeTwiceDiffers` shows that the text stored for a new
  group can differ from the text normalized once.

## Model

| member | source | states |
|---|---|---|
| Text.Trim | src/db.js:62 | the trimmed text has no leading or trailing JavaScript whitespace and is no longer than the input |
| Text.TrimStartDropsSpaces | src/db.js:62 | trimming the front removes only whitespace: the result is a suffix and everything cut is whitespace |
| Text.TrimEndDropsSpaces | src/db.js:62 | trimming the back removes only whitespace: the result is a prefix and everything cut is whitespace |
| Text.ToLower | src/db.js:62 | lower-casing keeps the length and maps each character to its ASCII lower case |
| Text.Sort | src/db.js:150 | the default string sort gives an ordered permutation of its input |
| Text.SortedUnique | src/db.js:150 | two ordered sequences with the same elements are equal, so the sorted parts are determined by their multiset |
| Normalize.EnumPrefix | src/db.js:61 | a prefix found is non-empty, lies within the text and is followed by the end or a non-space, so the trailing `\s*` is taken as far as it goes |
| Normalize.EnumPrefixIsMatch | src/db.js:61 | the greedy scan finds a prefix exactly when the pattern `^\s*\d+\s*[).:-]\s*` matches, and the prefix it finds is such a match |
| Normalize.MatchIsGreedy | src/db.js:61 | every match has its digits and its punctuation mark where the greedy scan puts them |
| Normalize.StripEnumPrefix | src/db.js:61 | without a marker the text is unchanged; with one, the text after the longest matched prefix remains and is strictly shorter |
| Normalize.NormalizeQuestionText | src/db.js:59-63 | empty text gives ""; otherwise the result is the marker-stripped, trimmed, lower-cased text, with no surrounding whitespace and no upper-case letter |
| Normalize.NormalizeIdempotentIff | src/db.js:59-63 | normalizing a normalized text changes nothing exactly when it does not start with an enumeration marker |
| Normalize.NormalizeTwiceDiffers | src/db.js:61-62 | a marker in front of a normalized text that itself starts with a marker is removed by one normalization, and a second normalization removes the inner marker too |
| Normalize.NormalizeDropsIntegerPart | src/db.js:61-62 | a leading digit and a point, as in a decimal number, are taken for an enumeration marker and dropped |
| Similarity.CosineSimilarity | src/db.js:65-79 | the loop's three sums are the dot product and the two squared norms; 0 on a length mismatch or a zero norm, and otherwise the quotient of the sums |
| Similarity.CosineZeroCases | src/db.js:66-77 | the similarity is 0 for vectors of different lengths and when either vector is all zeros |
| Similarity.CosineSymmetric | src/db.js:65-79 | the similarity is symmetric when the final quotient is symmetric in the two norms |
| Similarity.Cosine | src/db.js:65-79 | a similarity other than 0 needs two vectors of the same length, neither of them all zeros |
| Similarity.ScoreRow | src/db.js:118-123 | a row whose embedding does not parse is skipped, one that is not an array scores 0, and an array scores its similarity |
| Similarity.Score | src/db.js:118-123 | a row is skipped exactly when its stored text does not parse, and a stored vector of zeros scores 0 |
| Similarity.SelectBest | src/db.js:116-125 | the scan returns the first row with the strictly largest score above -1, or the initial record when no parsed row beats -1 |
| Similarity.ScanStep | src/db.js:117-121 | one more row keeps the record the first best row of the rows seen so far |
| Similarity.BestIsUnique | src/db.js:116-125 | at most one record meets the selection rule, so the choice is determined by the rows |
| Similarity.ReusesIffSomeRowAbove | src/db.js:127 | the best group is reused exactly when some parsed row scores at least 0.97 |
| Similarity.BestIsAGroup | src/db.js:121-128 | the chosen id is the id of a row of the table |
| Tables.UserIdOf | src/db.js:108-110 | a found id names the user with that name; no id means no user has the name |
| Tables.InsertUser | src/db.js:108 | a new name is appended after the existing users and a known name changes nothing |
| Tables.InsertUserKeepsValid | src/db.js:103-108 | inserting a trimmed non-empty name keeps names unique, trimmed and non-empty |
| Tables.InsertUserIds | src/db.js:108-109 | after the insert, a known name keeps its id, a new name gets the next id, and every other user keeps their id |
| Tables.InsertUserIdempotent | src/db.js:103-111 | inserting the same name again changes nothing and finds the same user |
| Tables.NextGroupId | src/db.js:130-131 | the new group's id is positive and above every existing id |
| Tables.AppendKeepsAscending | src/db.js:130-131 | appending a group with the next id keeps the ids ascending |
| Tables.InsertOption | src/db.js:87 | insert-or-ignore adds the row unless it is present, keeps the existing rows first and keeps the rows distinct |
| Tables.AddOptionsPrefix | src/db.js:139-145 | storing options keeps the earlier rows first, in order |
| Tables.AddOptionsMembers | src/db.js:139-145 | after storing, a row is present exactly when it was before or is the group's trimmed non-empty text of one of the options |
| Tables.AddOptionsKeepsValid | src/db.js:139-145 | storing options keeps the option rows distinct, trimmed and non-empty |
| Tables.AddOptionsPresent | src/db.js:141-144 | options that are all stored already are not stored again |
| Tables.AddOptionsIdempotent | src/db.js:139-145 | storing the same options twice is storing them once, so options behave as a set |
| Tables.FindAnswer | src/db.js:88 | finds the first row of the (group, user) pair, or reports that there is none |
| Tables.AnswerOf | src/db.js:88 | a stored answer is a row of the table; no answer means the pair has no row |
| Tables.Upsert | src/db.js:88 | afterwards the pair's answer is the new key, a new pair adds one row, and every other row keeps its place and value |
| Tables.UpsertKeepsOthers | src/db.js:88 | the upsert leaves the answer of every other (group, user) pair as it was |
| Tables.UpsertKeepsUnique | src/db.js:88 | the upsert keeps at most one row per (group, user) pair |
| AnswerKeys.CleanedParts | src/db.js:150 | every cleaned part is trimmed and non-empty |
| AnswerKeys.CleanedPermutation | src/db.js:150 | inputs with the same elements in any order give cleaned parts with the same elements |
| AnswerKeys.SortedParts | src/db.js:150 | the parts are sorted, trimmed and non-empty, and are exactly the cleaned elements, duplicates included |
| AnswerKeys.AnswerKey | src/db.js:147-154 | the stored key has no surrounding whitespace, and the key of an array is empty exactly when none of its elements has text |
| AnswerKeys.AnswerKeyOrderIndependent | src/db.js:149-151 | the key of an array does not depend on the order of its elements |
| AnswerKeys.AnswerKeyKeepsDuplicates | src/db.js:150-151 | a repeated answer appears twice in the key, so `[x, x]` and `[x]` give different keys |
| AnswerKeys.AnswerKeyDropsBlank | src/db.js:150 | an element that trims to nothing does not change the key |
| AnswerKeys.AnswerKeySingleAgrees | src/db.js:147-154 | a one-element array and the bare value give the same key |
| Join.AnswersIn | src/db.js:95 | a group's joined answers are exactly the answer rows of that group |
| Join.VariantsFor | src/db.js:97 | the joined variants are exactly the variant rows of the same group and the same user |
| Join.OptionTextsIn | src/db.js:98 | the joined option texts are exactly those of the group's option rows |
| Join.AnswerCells | src/db.js:95-96 | each answer is joined with the name of its user, or NULL when there is no such user |
| Join.JoinRows | src/db.js:89-100 | every group gives at least one row, answered or not, and every row carries the id and canonical text of a stored group |
| OrderedMaps.Put | src/db.js:171-179 | afterwards the entry (key, value) is present; setting a present key keeps the keys and their order, and a new key is appended; other entries are unchanged and keys stay distinct |
| OrderedMaps.PutThenGet | src/db.js:171-179 | with distinct keys, `get` after `set` finds the value just set |
| OrderedMaps.Get | src/db.js:162 | a key is found exactly when it is present, with its value |
| OrderedMaps.PutPut | src/db.js:171-179 | setting a key twice leaves the last value, in the place the first set gave it |
| OrderedMaps.SetAdd | src/db.js:173 | adding to a set appends an absent element and ignores a present one |
| Fold.FoldJoinedRows | src/db.js:160-181 | the loop, writing the record back after each change, computes the fold of the rows |
| Fold.UpdateRecord | src/db.js:173-180 | the three conditional updates of one row change the record as one step of the fold: option added, answer and variant set when their columns are truthy |
| Fold.StepByIdWrites | src/db.js:162-179 | storing a fresh record and then updating it is one write of the updated record |
| Fold.FoldById | src/db.js:160-181 | folding rows into the map keeps every key already there, makes each row's group id a key, and keeps keys distinct |
| Details.LatestText | src/db.js:177-179 | the variant text kept is a non-empty text of the user's variants, and none is kept when all are empty |
| Details.GroupOptions | src/db.js:173 | a record's option set is the group's option texts in table order, each once |
| Details.GroupAnswers | src/db.js:174-176 | a record's answer map lists each answering user with a known name once, in table order |
| Details.GroupVariants | src/db.js:177-179 | a record's variant map holds, for each answering user, that user's latest non-empty variant text in the group |
| Details.GroupFoldIsExpected | src/db.js:161-181 | folding a group's joined rows into a fresh record gives the record computed from the tables |
| Details.FoldJoinIsExpected | src/db.js:89-181 | folding the whole join gives one record per group, in id order, each the record computed from the tables |
| Details.ExpectedById | src/db.js:159-181 | there is one expected record per group, keyed by its id, in table order |
| Views.PushWrites | src/db.js:189-191 | creating the empty list and pushing onto it is one write of the extended list |
| Views.GroupNamesByAnswer | src/db.js:187-192 | the loop builds the grouping of the names by answer key |
| Views.ConflictIff | src/db.js:193 | more than one key is seen exactly when two answers have different keys |
| Views.GroupByAnswerNames | src/db.js:187-194 | every answering name lands in exactly one list, so the flattened lists hold exactly the names |
| Views.ViewOf | src/db.js:183-203 | a view is flagged as a conflict exactly when two of its answers differ, and lists no differing users otherwise |
| Views.ViewsOf | src/db.js:183-204 | there is one view per record, in order |
| Views.BuildViews | src/db.js:182-205 | the second loop computes the views of the records |
| Views.ViewConflict | src/db.js:193-194 | the conflict flag holds exactly when two answers differ; with a conflict the differing users are all answering users, and otherwise none |
| Views.TableViews | src/db.js:182-205 | one view per group, in ascending id order, answered or not, with the group's id and canonical text |
| Views.UnansweredView | src/db.js:183-203 | a group nobody answered has no answers, no variants, no conflict and no differing users |
| Views.ViewOptions | src/db.js:184 | a view's options are distinct and are exactly the group's option texts |
| Views.AnswerEntriesOf | src/db.js:174-176 | the answers listed are exactly those of users with a truthy id and a known name |
| Views.VariantEntriesOf | src/db.js:177-179 | each listed variant belongs to an answering user, is that user's latest non-empty text in the group, and is flagged exactly when it equals the canonical text |
| Views.RecordVariants | src/db.js:174-179 | a record has one answer and at most one variant per user, and each variant belongs to a user who answered the group |
| Store.QuestionStore.constructor | src/db.js:15-57 | a new database has five empty tables |
| Store.QuestionStore.GetOrCreateUser | src/db.js:103-111 | a blank trimmed name fails with "Name required" and writes nothing; otherwise the trimmed name is inserted unless known and its user is returned; other tables are unchanged |
| Store.QuestionStore.FindOrCreateGroupForQuestion | src/db.js:113-137 | if some row reaches the threshold, the groups are unchanged and the first best group is returned; otherwise one group with the normalized text and the embedding is appended under the next id; a variant is appended exactly when the user id is truthy; the id returned is a stored group |
| Store.QuestionStore.StoreOptions | src/db.js:139-145 | a non-array stores nothing; an array stores each trimmed non-empty option unless present; other tables are unchanged |
| Store.QuestionStore.StoreAnswer | src/db.js:147-156 | the user's answer in the group becomes the key of the chosen answers, every other answer is unchanged, and other tables are unchanged |
| Store.QuestionStore.ListGroupsWithDetails | src/db.js:158-206 | the views returned are those computed directly from the tables |
| Store.QuestionStore.ClearAllData | src/db.js:208-216 | groups, variants, options and answers become empty; users are unchanged |
| Store.QuestionStore.IngestItem | src/server.js:87-94 | users are unchanged; as in `findOrCreateGroupForQuestion`, the groups are kept and the first best group is returned when some row reaches the threshold, and otherwise one group with the twice-normalized text is appended under the next id; the returned id is a stored group; a truthy user id appends the twice-normalized text as a variant; a non-empty options array is stored, and otherwise the options are unchanged; the user's answer in the returned group becomes the key of the chosen answers |
| UploadQueue.RemoveAt | public/main.js:36-41 | an index without an entry changes nothing; otherwise exactly that entry is removed and the others keep their order |
| UploadQueue.Enqueue | public/main.js:20-25 | the old queue is a prefix of the new one, which is longer by at most the number of files in the batch |
| UploadQueue.EnqueueKeepsPrefix | public/main.js:18-26 | existing entries stay first and in order; every new entry is an image from the batch |
| UploadQueue.EnqueueKeepsNoDuplicates | public/main.js:20-25 | a queue without two entries of the same name and size keeps none, including duplicates within one batch |
| UploadQueue.EnqueueHoldsImages | public/main.js:20-25 | afterwards every image of the batch is queued, as itself or as an earlier entry with the same name and size, and nothing queued is lost |
| UploadQueue.RemoveKeepsNoDuplicates | public/main.js:36-41 | removing an entry keeps a queue without duplicates |
| UploadQueue.Queue.constructor | public/main.js:16 | the queue starts empty |
| UploadQueue.Queue.AddFilesToQueue | public/main.js:18-28 | the queue becomes the old queue with the batch's new images offered one by one against the live queue |
| UploadQueue.Queue.ClearQueue | public/main.js:30-34 | the queue becomes empty |
| UploadQueue.Queue.RemoveFromQueue | public/main.js:36-42 | the queue loses exactly the entry at the index, if there is one |
| Render.SectionRule | public/main.js:144-156 | a conflict goes to conflicts; otherwise onlyMe exactly when I answered and nobody else did, missingMe exactly when I did not and someone else did, and a group without answers is normal |
| Render.SectionOf | public/main.js:148-156 | a group goes to conflicts exactly when it is flagged, and to the normal section exactly when it is not flagged and either I and someone else both answered or neither did |
| Render.InSectionMembers | public/main.js:144-157 | a section holds exactly the input groups that belong to it |
| Render.SectionsPartition | public/main.js:144-157 | the four sections together hold every input group exactly once |
| Render.BucketGroups | public/main.js:137-157 | the loop leaves each section with its groups in input order |
| Render.InSectionAppend | public/main.js:148-156 | a group pushed at the end of the input is pushed at the end of its section only |
| Render.DifferingVariants | public/main.js:195 | the variants shown are exactly those not flagged as matching the canonical text |
| Render.ShownVariants | public/main.js:195 | on a view of the tables, the variants shown are exactly those whose text differs from the group's canonical text |
| Render.EscapeHtml | public/main.js:216-223 | the output contains no raw `<`, `>`, `"` or `'` |
| Render.EscapeHtmlIsEscapeEach | public/main.js:216-223 | the chain of replacements, `&` first, equals escaping each character on its own |
| Render.EscapedIsSafe | public/main.js:216-223 | the output contains no `<`, `>`, `"` or `'`, and every `&` in it begins one of the five entities |
| Render.UnescapeEscape | public/main.js:216-223 | decoding the five entities gives back the original text, so escaping loses nothing |

## Left out

- Storage and transport: SQLite itself, WAL mode and the `data/` directory are left out. Each
  table is a sequence of rows, and each statement is a function on them.
- Foreign keys: SQLite does not enforce the `FOREIGN KEY` clauses without
  `PRAGMA foreign_keys`, and neither does the model. `StoreOptions`, `StoreAnswer`,
  `FindOrCreateGroupForQuestion` and `IngestItem` accept a group id or a user id that names no
  stored row, and keep such rows. The listing still handles them as SQL does: `Join.AnswerCells`
  joins an unknown user as NULL, and rows of a group that is not stored are never joined.
- Timestamps: the `created_at` columns are never read by the core.
- Within one group, SQL does not fix the order of the joined rows (`ORDER BY g.id` only). The
  model fixes the order as answers, then variants, then options, each in table order. As a
  result, the latest non-empty variant of a user is the one shown.
- Concurrency: the read–decide–write sequence of `findOrCreateGroupForQuestion` is not atomic,
  and two concurrent uploads could both create a group. Calls are modelled as sequential.
- Floating point: the division of the dot product by `Math.sqrt(normA) * Math.sqrt(normB)` is
  an abstract parameter. Sums are exact reals, so IEEE rounding and NaN are not modelled.
- Similarity.CosineSimilarity: an array holding non-numbers is not modelled. Stored embeddings
  are arrays of numbers, or a value that is not an array, or text that does not parse.
- JSON: `JSON.stringify` of the embedding is not modelled. The stored text is represented by
  what parsing it gives.
- `String()` of non-string values: chosen answers and options are strings, and missing or falsy
  ones are the empty string. Numbers and objects converted with `String` are not modelled.
- Normalize.NormalizeQuestionText and Render.EscapeHtml: the `!text` guard and `String(s || '')`
  are modelled only for the empty string. A `null`, `undefined` or non-string argument is not
  modelled, since every caller passes a string.
- Unicode: lower-casing is ASCII only, and strings are sequences of code points. JavaScript's
  UTF-16 sort order and full case mapping are not modelled.
- `src/openai.js` (image extraction and embeddings) is a foreign service and is not part of this
  model. The embedding, the extracted items and the quotient are parameters.
- `src/server.js`: routing, sessions, uploads to disk and the HTTP responses are left out. Only
  the per-item sequence at src/server.js:87-94 is modelled, as `IngestItem`.
- DOM work in `public/main.js`: element creation, the HTML templates of `renderQueue` and
  `renderSection`, event listeners, `fetch`, alerts and the loading indicator are left out.
- Object URLs: the client creates and revokes an object URL per queued file. That is I/O, and
  the queue holds only each file's name, size and MIME type.
- Reading the current user's name from the page: it is the parameter `me` of the bucketing.
