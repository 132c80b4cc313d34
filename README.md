# english_upper progress tracker in Dafny

`english_upper` is a small Flask application for practising translation.
The user pastes a text. The application splits it into sentences and stores a
machine translation of each one. The user then translates the sentences one by
one, and the application keeps score: points, levels, and counts of the texts
created and finished.

This project models that score keeping as a state machine over three tables:

- `TextObject`: one row per text, with its sentence count, its translated count
  and its status (`New` or `Finished`);
- `TextForTranslate`: one row per sentence, with the sentence, its machine
  translation and the user's translation, if any;
- `Results`: the single score row, with texts, finished texts, points and level.

The three tables are the fields of the class `Tracker.Database`. Its three
methods are the three handlers that change them:

- `CreateText` is the POST branch of `new`;
- `SubmitTranslation` is the POST branch of `translate`;
- `RemoveText` is `remove`.

The read-only pages are functions in `Queries`:

- `MainListing` is the `main` listing;
- `TextById` is the `text` page;
- `NextUntranslated` is the GET branch of `translate`;
- `ReadTranslated` is `read`.

Modules:

- `Wrappers`: `Option`.
- `PyStrings`: Python's `str.strip()` over Python's whitespace set.
- `Records`: the row types, the reward constants and the level carry.
- `Tables`: filtering, first match and reversal over a table kept in id order,
  with their lemmas.
- `Queries`: the read-only pages.
- `Tracker`:
  - the database class;
  - the table invariants: every sentence belongs to an existing text, and each
    text's sentence count and status agree with its sentences;
  - the score invariant: the counts match the tables, `0 <= points < 500`, and
    `level * 500 + points` equals every point ever awarded;
  - the lemmas showing that each handler keeps these invariants.
- `Findings`: concrete runs that show the discrepancies listed under
  "## Findings".

A table is a sequence in ascending id order. SQLite gives a new row the largest
id plus one, which is the last id plus one (`NextTextId`, `NextSentenceId`).

The intended rule is that a text is Finished once every sentence has a translation.
The code does not keep that rule. The model follows the code.

- What the code keeps: a text is Finished exactly when it has sentences and its
  translated count has reached its sentence count (`Tracker.TextConsistent`).
- Where it goes wrong: the translated count can exceed the number of sentences
  that really have a translation (see "## Findings").
- The intended equivalence: `Tracker.FinishedIffAllTranslated` proves it under
  the extra invariant `Exact`, which says every translated count is exact.
  The checked handler keeps `Exact`.

## Model

| member | source | states |
|---|---|---|
| PyStrings.Strip | app.py:118 | The result is a substring of the input. Only whitespace is cut from either end. The result neither starts nor ends with whitespace. The result is empty exactly when the input is all whitespace. |
| Records.Carry | app.py:83-85 | The single carry step keeps `level*500 + points` and both text counts. It adds one level exactly when points reached 500. It brings any points in `[0, 1000)` back into `[0, 500)`. |
| Records.CarryAll | app.py:83-85 | The reference carry: it repeats the step until points fall below 500. It keeps `level*500 + points`. For non-negative points it adds `points / 500` levels and leaves `points` in `[0, 500)`. |
| Records.SingleCarrySuffices | app.py:83-85 | For points in `[0, 1000)`, the single `if` of the handlers gives the same row as the full carry. |
| Tables.FindFirst | app.py:94 | The first-match lookup (`filter_by(...).first()`). `Some(i)` is a matching row with no match before it. `None` means no row matches. |
| Tables.FilterMembers | app.py:102 | A row is in the filtered table exactly when it is in the table and satisfies the filter. |
| Tables.FilterKeepsIncreasing | app.py:42-43 | Filtering keeps ascending id order. |
| Queries.MainListing | app.py:42-43 | The listing holds exactly the texts with the given status. For a table in id order, the listing is in strictly descending id order, newest first. |
| Queries.TextById | app.py:91-96 | `Some` is a row of the table with that id. `None` means no row has that id. |
| Queries.SentenceById | app.py:114 | `Some` is a sentence row with that id. `None` means no row has that id. |
| Queries.NextUntranslated | app.py:100-104 | `None` exactly when every sentence of the text has a non-empty user translation. Otherwise it is the first sentence of the text, in table order, whose user translation is missing or empty. |
| Queries.ReadTranslated | app.py:145-150 | Exactly the sentences of the text that have a non-empty user translation, in table order. |
| Queries.ReadAndPendingPartition | app.py:102 | Each sentence of a text appears on exactly one of the two pages, read or still to translate. |
| Queries.NothingPendingIffAllRead | app.py:100-104 | The translate page has nothing to offer exactly when the read page lists every sentence of the text. |
| Tracker.NextTextId | app.py:67 | The new text's id is above every id in a table kept in ascending order. |
| Tracker.NewRows | app.py:70-76 | The rows the create loop inserts: one per (sentence, translation) pair, in the pairs' order. Row `k` has id `firstId + k`, belongs to the new text, carries that pair and has no user translation. |
| Tracker.AfterTranslation | app.py:123-127 | The parent text after a submission. Its translated count rises by one. It becomes Finished exactly when the raised count meets its sentence count. Otherwise its status is unchanged. |
| Tracker.ScoreAfterCreate | app.py:78-85 | One more text; finished texts unchanged; 25 points added before one carry. The `level*500 + points` total rises by exactly 25. Points in `[0, 500)` stay in `[0, 500)`. |
| Tracker.ScoreAfterTranslation | app.py:120-133 | One point, plus 50 and one finished text when the parent finishes, all before one carry. The `level*500 + points` total rises by exactly that reward. Points in `[0, 500)` stay in `[0, 500)`. |
| Tracker.ParentFound | app.py:122 | In a consistent database, every sentence's parent text is found. |
| Tracker.CreateKeepsConsistency | app.py:52-89 | Creating a text keeps the table invariants: ids stay ascending, every sentence has its parent, and each text's sentence count and status agree with its sentences. |
| Tracker.CreateKeepsEarlierSentences | app.py:60-76 | Creating a text leaves the sentences of every earlier text exactly as they were. |
| Tracker.CreateKeepsExact | app.py:60-76 | Creating a text keeps every translated count exact. The new text starts at zero and has no translated sentence. |
| Tracker.CreateKeepsInvariants | app.py:52-89 | Creating a text keeps both invariants. The score becomes `ScoreAfterCreate` of the old score, and 25 more points have been earned. |
| Tracker.SubmitKeepsConsistency | app.py:116-133 | A submission keeps the table invariants. A text about to finish was New. The number of Finished texts rises by one exactly when the parent finishes. |
| Tracker.SubmitKeepsScore | app.py:120-133 | A submission keeps the score invariant. The score counts still match the tables, and points stay in `[0, 500)`. |
| Tracker.SubmitKeepsInvariants | app.py:116-133 | A submission as written keeps both invariants. A text about to finish was New. |
| Tracker.SubmitCheckedKeepsExact | app.py:116-124 | A non-empty translation of a sentence that has none keeps every translated count exact. |
| Tracker.RemoveTextRow | app.py:162 | In a table in id order, deleting by id removes exactly the one row with that id and keeps the others in order. |
| Tracker.RemoveKeepsScore | app.py:156-160 | One text fewer, and one finished text fewer exactly when the removed text was Finished, keeps the score invariant. Points and level stay. |
| Tracker.RemoveKeepsConsistency | app.py:152-167 | The cascade delete keeps the table invariants. No sentence is left whose parent text is gone. Exact counts stay exact. |
| Tracker.RemoveKeepsInvariants | app.py:152-167 | Removing a text keeps both invariants. Exact counts stay exact. |
| Tracker.FinishedIffAllTranslated | app.py:126-128 | With exact counts, a text is Finished exactly when it has sentences and the translate page has none left to offer. |
| Tracker.CreatedTextQueries | app.py:70-76 | Right after creation, the text's sentences are exactly the new rows. The translate page shows the first of them, or nothing for a text without sentences. The read page is empty. |
| Tracker.Database.constructor | app.py:32-37 | Empty tables and a zero score row satisfy both invariants. |
| Tracker.Database.CreateText | app.py:52-89 | Appends the text with `count_sentences = \|pairs\|`, zero translated and status New, under the next id. Appends `NewRows` for the pairs. Sets the score to `ScoreAfterCreate` of the old score. Keeps both invariants and exact counts. |
| Tracker.Database.AddText | app.py:60-85 | The create handler's updates in order: the text row, the sentence rows, then the score. The result is the appended text, the appended `NewRows`, and `ScoreAfterCreate` of the old score. |
| Tracker.Database.InsertSentences | app.py:70-76 | The insertion loop appends exactly `NewRows(textId, pairs, NextSentenceId(old sentences))`. It changes nothing else. |
| Tracker.Database.RecordTranslation | app.py:118-133 | The submit handler's updates in order. Only the answered sentence and its parent text change. The parent becomes `AfterTranslation` of itself, and the score becomes `ScoreAfterTranslation`. |
| Tracker.Database.SubmitTranslation | app.py:112-135 | An empty string changes nothing. Any other string is stored stripped on the sentence. The parent becomes `AfterTranslation` of itself, and the score `ScoreAfterTranslation`. Nothing else changes. Both invariants are kept. |
| Tracker.Database.SubmitTranslationChecked | app.py:116-124 | The corrected handler. It ignores a string that strips to empty, and a sentence already translated. Otherwise it acts exactly as `SubmitTranslation`. It keeps exact counts as well as both invariants. |
| Tracker.Database.RemoveText | app.py:152-167 | Deletes the text and every sentence of it, and nothing else. One text fewer. One finished text fewer exactly when the text was Finished. Points and level unchanged. Both invariants and exact counts are kept. |
| Tracker.Database.DeleteText | app.py:156-164 | The remove handler's updates in order: the two counters, then the text row and every sentence row of that text. |
| Findings.BlankSubmissionFinishesEarly | app.py:116-118 | As written, a blank answer to a one-sentence text makes the text Finished. The translate page still offers that sentence. |
| Findings.BlankSubmissionIgnored | app.py:116-118 | Through the checked handler the same run leaves the text New, and the sentence still on offer. |
| Findings.ResubmissionFinishesEarly | app.py:112-128 | As written, answering the first sentence of a two-sentence text twice makes the text Finished. The second sentence is never translated. |
| Findings.AnswerFirstSentence | app.py:116-128 | As written, answering sentence 1 again raises the translated count again, even when it already has an answer. |
| Findings.ResubmissionIgnored | app.py:112-128 | Through the checked handler the second answer is ignored. The text stays New and the second sentence is still on offer. |

## Left out

- Flask routing, form parsing, templates and redirects: each handler is a method taking the form values as parameters.
- SQLAlchemy sessions and commits, including the commit after every sentence row: each handler is one atomic update of the three tables. Creating the database file at startup is left out too.
- The NLTK sentence tokenizer and the googletrans call: the create handler takes the resulting (sentence, translation) pairs as a parameter.
- Requests for ids that do not exist:
  - in the source they crash on `None`;
  - `SubmitTranslation` and `RemoveText` instead require the id to exist;
  - `SubmitTranslation` requires it only for non-empty strings, since the source does not dereference the looked-up sentence for an empty string.
- Concurrent requests: the application serves one user in one process.
- The `Results` row: the source never creates it. The model starts from a row with every field zero.
- The `results` page only displays the score row, so it has no member of its own.
- The status column is a string in the source. It is the datatype `Status` here, because the source only ever writes "New" or "Finished".
- Column widths (`String(255)`, `String(512)`) are not enforced.
- The integer columns are unbounded here. No operation comes near SQLite's 64-bit limit.
- Row order of unordered queries: the listings at app.py:102 and app.py:148 call `.all()` without `order_by`, which SQL leaves unspecified. The model returns rows in ascending id (insertion) order, SQLite's table-scan order for this schema. "First untranslated" in `NextUntranslated` and "in table order" in `ReadTranslated` rely on that.
- Tables.Filter: states only a length bound in its own contract. Its meaning is given by the lemmas beside it (`FilterMembers`, `FilterAppend`, `FilterAll`, `FilterNone`, `FilterUpdate`, `FilterKeepsIncreasing`).

## Findings

| source | as written | input that shows it | evidently intended | confidence | as-written member | corrected member |
|---|---|---|---|---|---|---|
| app.py:116-118 | The emptiness test is made on the raw form string, before `.strip()`. A whitespace-only answer is stored as `""`, earns a point and counts as translated. | A text with one sentence; the answer `" "` | A blank answer changes nothing. A text is Finished only when every sentence has a translation. | not executed | Findings.BlankSubmissionFinishesEarly | Tracker.Database.SubmitTranslationChecked |
| app.py:112-128 | Nothing checks whether the sentence already has a translation. Submitting the same sentence again counts again. | A text with two sentences; the answer `"Hi"` to sentence 1, twice | Each sentence counts once. A text is Finished only when every sentence has a translation. | not executed | Findings.ResubmissionFinishesEarly | Tracker.Database.SubmitTranslationChecked |
