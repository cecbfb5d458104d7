# Annotation-session model

A Dafny model of the review tool's session logic in `app.py`: it pairs
clinical-case files with generated discharge-summary files, lets an annotator
move through the pairs, reports per-annotator progress, and validates and
appends answer sets to a tab-separated results file. Each annotator may have
at most one record per document. The Streamlit page is left out. What stays
is the logic that feeds it and the logic that runs on "Submit Answers".

Modules, in the order the script runs:

- `Pairing` (`pairing.dfy`): `get_file_pairs`. Python's order on strings
  (`LexLe`), `sorted` (a functional insertion sort, `Sort`), `zip` (`Zip`) and
  `FilePairs`. Sort is proved to return the one sorted permutation of its
  input. The pair list is proved to be the positional zip of the two sorted
  lists, truncated to the shorter one, whatever order the files were found
  in.
- `DocIds` (`docids.dfy`): `os.path.basename(path).split(".")[0]`. The
  identifier is characterised as the unique middle part of a
  directory / identifier / extension split of the case path.
- `Navigation` (`navigation.dfy`): the clamped "Previous" and "Next" moves on
  the index that starts at 0, and any run of clicks.
- `Validation` (`validation.dfy`): the answer sentinel `"Select an answer"`,
  Python's `str.strip`/`str.isspace`, and the ordered error list. The
  `Validate` method is the handler's loop. `ValidationErrors` is the
  specification it meets, and lemmas say which errors there are, in what
  order, and when the list is empty.
- `Progress` (`progress.dfy`): records, the column order of a row, the
  per-annotator count, the "already annotated?" query, the duplicate guard's
  pair set, the two panel loops, and the `ResultsFile` class. That class
  holds whether the file exists and its lines: a header line, then data
  lines.
- `Session` (`session.dfy`): the submit handler's decision (`Decide`) and
  the records it leaves (`Committed`), with their lemmas, and the
  `AnnotationSession` class. That class holds the pair list, discovered
  again on every rerun (`Rediscover`), and the `index`. It has the
  `Previous`/`Next` buttons and `Submit`. `DecideAsLoaded` is the decision
  as the script computes it on the loaded frame (see Findings).
  `Submit` either changes nothing (validation errors, or a
  duplicate) or appends exactly one record, writing the header only when the
  file did not exist.

The model follows the code, including where its behaviour may be unexpected:

- Mismatched list lengths are truncated silently, with no warning (the
  docstring at app.py:62-64 speaks only of pairing by sorted order).
- The pair list is discovered again on every rerun of the script. Only the
  index survives between reruns. When files go away, the kept index may no
  longer name a pair. An empty corpus is the same case. The script then raises
  IndexError at app.py:143 and reports no error of its own. The model
  states when the index still names a pair (`OnPair`). The document view and
  the submit handler require it.
- The delimiter is the fixed tab character.
- A results file that cannot be read is not handled: the error from
  `read_csv` at app.py:85 propagates.
- Only the placeholder answer is flagged by validation. A single-choice
  question whose pill was deselected (`Unselected`) passes
  (`Validation.DeselectedPillPasses`).
- Two case files that differ only after their first dot get the same
  identifier, so the duplicate guard treats them as one document
  (`DocIds.DocIdIgnoresEverythingAfterFirstDot`).
- The results file is loaded with pandas's default missing-value strings in
  effect. A doc id such as `NA` therefore loads as a missing value. This is
  the one difference the model records as a finding (below). The rest of the
  model uses the loading the guard evidently intends (the comments at app.py:84
  and 383-387 speak of the doc id as a string), which keeps every cell
  as written.

## Model

| member | source | states |
|---|---|---|
| `Pairing.LexLeTotal` | app.py:74 | Python's string order compares any two paths |
| `Pairing.LexLeAntisymmetric` | app.py:74 | two paths that are each at most the other are equal |
| `Pairing.LexLeTransitive` | app.py:74 | the string order is transitive |
| `Pairing.CommonDirectoryOrder` | app.py:66-71 | paths under one directory are ordered by their file names |
| `Pairing.InsertSorted` | app.py:74 | inserting into a sorted list keeps it sorted |
| `Pairing.Sort` | app.py:74 | `sorted` returns a permutation of its input, of the same length |
| `Pairing.SortSorted` | app.py:74 | `sorted` returns a sorted list |
| `Pairing.SortedPermutationUnique` | app.py:74 | two sorted permutations of one list are equal |
| `Pairing.SortIsTheSortedPermutation` | app.py:74 | a list is `sorted(s)` exactly when it is sorted and a permutation of `s` |
| `Pairing.Zip` | app.py:74 | `zip` has the shorter length, and entry i pairs the i-th elements |
| `Pairing.FilePairs` | app.py:61-75 | definition: `zip(sorted(cases), sorted(summaries))`; characterised by `Pairing.FilePairsArePositional` and `Pairing.FilePairsIgnoreDiscoveryOrder` |
| `Pairing.FilePairsArePositional` | app.py:61-75 | the pairs are the positional zip of the sorted case list and the sorted summary list, as many as the shorter list |
| `Pairing.FilePairsIgnoreDiscoveryOrder` | app.py:70-74 | the pair list does not depend on the order glob returns files in |
| `Pairing.FilePairsSortedAndDrawnFromInputs` | app.py:74 | both columns of the pair list are sorted, and every entry is a discovered file |
| `Pairing.FilePairsTruncate` | app.py:74 | with fewer summaries than cases, the largest cases in sorted order belong to no pair |
| `DocIds.Basename` | app.py:144 | the base name holds no `/`, is a suffix of the path, and is preceded by `/` when shorter |
| `DocIds.Stem` | app.py:144 | the stem holds no `.`, is a prefix of the name, and is followed by `.` when shorter |
| `DocIds.DocId` | app.py:144 | definition: the stem of the base name; characterised by `DocIds.DocIdSplits` and `DocIds.DocIdUnique` |
| `DocIds.DocIdSplits` | app.py:144 | every case path splits as directory, identifier, extension around its doc id |
| `DocIds.DocIdUnique` | app.py:144 | any such split has the doc id as its middle part |
| `DocIds.DocIdExample` | app.py:144 | `pairs/original/a.b.txt` has doc id `a` |
| `DocIds.NaCaseFileId` | app.py:144 | `pairs/original/NA.txt` has doc id `NA` |
| `DocIds.DocIdIgnoresEverythingAfterFirstDot` | app.py:144 | case files that differ only after their first dot share one doc id |
| `Navigation.Retreat` | app.py:135-137 | "Previous" steps back by one or stays, stays exactly at or below 0, and never goes negative |
| `Navigation.Advance` | app.py:138-140 | "Next" steps forward by one or stays, stays exactly at the last position, and never leaves the range |
| `Navigation.Run` | app.py:135-140 | definition: a sequence of clicks applied in turn; characterised by `Navigation.RunStaysInRange`, `Navigation.NextSaturates` and `Navigation.PreviousSaturates` |
| `Navigation.RunStaysInRange` | app.py:135-140 | from a position in range, any sequence of clicks keeps `0 <= index < total_docs` |
| `Navigation.MovesClamp` | app.py:135-140 | in range, "Previous" gives max(index-1, 0) and "Next" gives min(index+1, total-1) |
| `Navigation.NextSaturates` | app.py:138-140 | k clicks on "Next" give min(index+k, total-1) |
| `Navigation.PreviousSaturates` | app.py:135-137 | k clicks on "Previous" give max(index-k, 0) |
| `Validation.TrimStart` | app.py:375 | removing leading whitespace leaves a suffix that starts with a non-space, and only spaces were removed |
| `Validation.TrimEnd` | app.py:375 | removing trailing whitespace leaves a prefix that ends with a non-space, and only spaces were removed |
| `Validation.IsSpace` | app.py:375 | definition: the characters `str.isspace` accepts; used by `Validation.TrimStart`, `Validation.TrimEnd` and `Validation.StripEmptyIffBlank` |
| `Validation.Strip` | app.py:375 | definition: `str.strip()`; characterised by `Validation.StripEmptyIffBlank` |
| `Validation.StripEmptyIffBlank` | app.py:375 | `not comments.strip()` holds exactly when the feedback is empty or whitespace only |
| `Validation.QuestionErrorsSnoc` | app.py:370-372 | one more answer adds one error, numbered by its position, exactly when it is the placeholder |
| `Validation.QuestionErrors` | app.py:370-372 | definition: the numbered errors for the placeholder answers; characterised by `Validation.QuestionErrorsMembers` and `Validation.QuestionErrorsInOrder` |
| `Validation.ValidationErrors` | app.py:363-376 | definition: the handler's error list; characterised by `Validation.ValidationErrorsMembers`, `Validation.ValidationErrorsInOrder` and `Validation.ValidationErrorsEmptyIff` |
| `Validation.Message` | app.py:367-376 | definition: the text shown for each error; characterised by `Validation.MessagesDistinct` |
| `Validation.Validate` | app.py:362-376 | the handler builds exactly the specified error list |
| `Validation.AppendQuestionErrors` | app.py:370-372 | the loop over questions 3..9 appends exactly the question errors, in order |
| `Validation.QuestionErrorsMembers` | app.py:370-372 | a question error for n is present exactly when the n-th answer is the placeholder |
| `Validation.QuestionErrorsInOrder` | app.py:370-372 | question errors are numbered within range and in increasing order |
| `Validation.ValidationErrorsInOrder` | app.py:363-376 | the annotator error comes first, the question errors by number, the feedback error last, each at most once |
| `Validation.ValidationErrorsMembers` | app.py:363-376 | the annotator error iff the name is unknown; error n iff question n (3..9) holds the placeholder; the feedback error iff the feedback is blank |
| `Validation.ValidationErrorsEmptyIff` | app.py:363-378 | the submission passes exactly when the name is known, no question 3..9 holds the placeholder, and the feedback is not blank |
| `Validation.BlankFeedbackRejected` | app.py:375-376 | blank feedback is always rejected, and its error is last |
| `Validation.KeyInformationNotChecked` | app.py:370 | questions 1 and 2 never affect validation |
| `Validation.DeselectedPillPasses` | app.py:371 | a deselected single-choice answer is not flagged, only the placeholder is |
| `Validation.MessagesDistinct` | app.py:367-376 | the errors the validator reports have distinct messages |
| `Progress.Row` | app.py:391-404 | a row has one cell per column, doc id and annotator first, feedback last |
| `Progress.ParseRow` | app.py:83-88 | definition: a row read back by position; characterised by `Progress.RowRoundTrip` |
| `Progress.DataRecords` | app.py:83-88 | definition: the records of the data lines in file order; characterised by `Progress.DataRecordsAfterAppend` |
| `Progress.RowRoundTrip` | app.py:85 | read with every cell kept as written, a written row is read back as the same record |
| `Progress.SplitJoin` | app.py:85 | cells without the delimiter are recovered by splitting their join |
| `Progress.HeaderRoundTrip` | app.py:410-416 | the names of the file's header line, written with a tab separator, are read back unchanged with the tab delimiter |
| `Progress.DataRecordsAfterAppend` | app.py:410-416 | an appended header line adds no record, and an appended row adds the record it holds |
| `Progress.LoadedDocId` | app.py:85 | definition: the doc id cell as loaded, missing for pandas's default missing-value strings; characterised by `Progress.AnnotatedAsLoadedIff` |
| `Progress.AnnotatedAsLoaded` | app.py:155-158 | definition: the status query on the loaded frame; characterised by `Progress.AnnotatedAsLoadedIff` |
| `Progress.AnnotatedAsLoadedIff` | app.py:155-158 | on the loaded frame a pair is annotated exactly when its doc id is not a missing-value string and it is stored |
| `Progress.Count` | app.py:119 | the per-annotator count is at most the number of records |
| `Progress.CountAppend` | app.py:116-121 | appending one record raises its annotator's count by one and leaves every other count unchanged |
| `Progress.CountPositiveIff` | app.py:119 | the count is positive exactly when some record is by that annotator |
| `Progress.Annotated` | app.py:155-158 | definition: some record holds the (doc_id, annotator) pair; characterised by `Progress.AnnotatedAppend` and `Progress.ExistingPairsAreAnnotated` |
| `Progress.ExistingPairs` | app.py:384 | definition: the set of stored (doc_id, annotator) pairs; characterised by `Progress.ExistingPairsAreAnnotated` |
| `Progress.ExistingPairsAreAnnotated` | app.py:384-386 | the duplicate guard's pair set holds a pair exactly when the status query says annotated |
| `Progress.AnnotatedAppend` | app.py:155-158 | after appending a record, its (doc_id, annotator) pair is annotated and every other pair's status is unchanged |
| `Progress.UniqueAppend` | app.py:384-388 | appending keeps (doc_id, annotator) pairs unique exactly when the new pair was not yet present |
| `Progress.ProgressCounts` | app.py:116-121 | the progress panel shows each known annotator's count, 0 on an empty store |
| `Progress.DocumentStatus` | app.py:153-158 | the status panel shows, per known annotator, whether the current document is annotated |
| `Progress.ResultsFile.Absent` | app.py:83-88 | with no results file, the store loads an empty record list |
| `Progress.ResultsFile.Records` | app.py:83-88 | definition: `load_progress`, the file's records or none when the file is absent; characterised by `Progress.ResultsFile.Absent` and `Progress.ResultsFile.Append` |
| `Progress.ResultsFile.Append` | app.py:407-416 | an append adds a header line only when asked, then the row; with the header decided on existence, the layout stays valid and the loaded records gain exactly the new one |
| `Session.AnnotationSession.constructor` | app.py:95-101 | the first run holds the discovered pairs at index 0, and a pair is on screen exactly when both file lists are non-empty |
| `Session.AnnotationSession.Rediscover` | app.py:95-101 | a rerun discovers the pairs again and keeps the index, which names a pair exactly when both new lists are longer than it |
| `Session.AnnotationSession.Previous` | app.py:135-137 | "Previous" moves the index as `Retreat`, changes no pair, and keeps an index that named a pair naming one |
| `Session.AnnotationSession.Next` | app.py:138-140 | "Next" moves the index as `Advance` against this rerun's pairs, and keeps an index that named a pair naming one |
| `Session.AnnotationSession.CurrentDocId` | app.py:143-144 | definition: the doc id of the pair at the index; `Session.AnnotationSession.Submit` uses it |
| `Session.Decide` | app.py:378-388 | definition: validation first, then the duplicate guard; characterised by `Session.RejectedIffInvalid` and `Session.DuplicateIffAnnotated` |
| `Session.Committed` | app.py:384-416 | definition: the records after the handler, one more exactly when it saved; characterised by `Session.CommittedCount`, `Session.CommittedStatus` and `Session.CommittedKeepsPairsUnique` |
| `Session.AnnotationSession.Submit` | app.py:362-416 | the handler's outcome is `Decide` on the records loaded at the start of the run; the loaded records become `Committed`; a rejected or duplicate submission leaves the file untouched; a saved one appends the header only to a new file, then exactly one row |
| `Session.RejectedIffInvalid` | app.py:378-381 | a submission is rejected exactly when validation reports errors, with those errors, and nothing is stored |
| `Session.DuplicateIffAnnotated` | app.py:384-388 | a valid submission is discarded as a duplicate exactly when its (doc_id, annotator) pair is already annotated, and nothing is stored |
| `Session.CommittedCount` | app.py:116-121 | only a saved submission changes a count: the submitter's rises by one, every other annotator's stays |
| `Session.CommittedStatus` | app.py:155-158 | after a save the submitted pair is annotated, and no other pair's status ever changes |
| `Session.CommittedKeepsPairsUnique` | app.py:384-388 | the handler keeps at most one record per (doc_id, annotator) pair |
| `Session.DecideAsLoaded` | app.py:384-388 | the decision as the script computes it: for every doc id outside pandas's missing-value strings it is `Decide`; for a doc id inside them, valid input is always saved, whatever the stored records hold |
| `Session.NaDocIdSavedTwice` | app.py:85 | a second valid submission for `NA` by Leti is saved by the script, leaving two records for one pair, where `Decide` calls it a duplicate |
| `Session.FirstSubmission` | app.py:362-416 | on a fresh store, a valid submission for the first of three documents makes the count 1 and only that document annotated |

## Findings

| source | as written | input that shows it | evidently intended | confidence | as-written member | corrected member |
|---|---|---|---|---|---|---|
| app.py:85 | `read_csv` reads `doc_id` with `dtype=str` but keeps pandas's default missing-value strings. A stored doc id `NA`, `null`, `None`, `nan` or the empty string loads as NaN. The guard at app.py:384-386 and the status query at app.py:155-158 then never match it. | case file `pairs/original/NA.txt`, annotator `Leti`, valid answers, submitted on two runs: both are saved, Leti's count for the one document is 2, and the status stays "pending" | doc ids are compared as written (`keep_default_na=False`), so the second submission is a duplicate and each pair has at most one record | high (not executed) | `Session.NaDocIdSavedTwice` | `Session.CommittedKeepsPairsUnique` |

## Left out

- The Streamlit page: page setup, columns, widgets, status boxes, messages and the download button. Only the values the widgets return are modelled, as inputs.
- File discovery with `glob` and `os.path.join`: the two discovered path lists are inputs. Paths use `/` as the separator.
- Reading the two document texts for display.
- pandas: CSV quoting, the text form of list-valued cells, and dtype coercion. The file is modelled as a sequence of lines: a header, held as its column names, then rows of typed cells. Joining and splitting at the tab is modelled only for the header (`Progress.HeaderRoundTrip`). That lemma is why the file may hold the header's names in place of its text.
- Progress.RowRoundTrip: states the read-back with every cell kept as written. pandas's default missing-value parsing is modelled only for the doc id, which the status and duplicate queries read (`Progress.LoadedDocId`, and the finding below). For the other cells, that parsing changes values that nothing in the model reads back: a feedback of `NA`, an empty cell from a deselected pill.
- The floating-point progress ratios. They are used only for display.
- Several processes checking and appending to the same results file at once. Each run is modelled as one sequential step.
- Question and instruction texts and option labels. Only the placeholder value and the order of questions 3..9 are modelled.
- Submit's record store is the file's contents at the start of the run. Another process changing the file between the load (app.py:111) and the append is not modelled.
