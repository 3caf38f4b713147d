# Capsule endoscopy labeler: verified model of the registry and label-merge core

This project models the table logic of a single-page labeling tool for
capsule-endoscopy frames (`app.py`). The tool keeps two spreadsheets. One holds
*labeled* frames and the other holds *unlabeled* frames. Each row has a
`frame` file name, five 0/1 label cells (`Junk`, `LowQuality`, `Normal`,
`Stricture`, `Ulcer`), a comma-joined `class` string, `movie`, `pillcam` and a
`label_date`. The model covers the following:

- **Schema normalisation** (`Schema`): `ensure_columns` adds every missing required column. A `Record` has a field for every required column, so "filled with null" is stated through `Schema.Conforms`: a table conforms when each required column it lacks is null in every row.
- **Registry reconciliation** (`Registry`): `sync_unlabeled` appends a `{frame: name}` row for every listed file that neither table knows.
- **Edit buffer** (`EditSession`): `labeling_ui` seeds the checkboxes, either from the buffer or from the row's cells read as 0/1, and then overwrites the frame's buffered entry with a full set of five flags.
- **Merge** (`Merge`, `EditSession.Session.MergeTempLabels`): every buffered entry either relabels the first labeled row of its frame in place, or promotes the frame by appending a labeled row and removing the frame's unlabeled rows. The merge counts the entries and clears the buffer.
- **Class derivation** (`Labels`): the class is the names of the set flags, joined by `","` in key order.
- **Filtering** (`Filters`): `apply_filters` chooses a status base, then applies exact-match movie and pillcam facets and a conjunctive "has labels" selection.
- **Navigation cursor** (`EditSession.MoveCursor`, `Session.Navigation`): Previous and Next clamp the cursor. An empty view shows nothing.
- **Write-back rule** (`Commit`): `main` uploads only when the merge changed something. The unlabeled sheet is uploaded only when its file id is configured.

Tables are sequences of `FrameTable.Record`. A cell pandas would hold as
NaN is `None`. Because a comparison with NaN is never true, a row with an
empty `frame` cell matches no frame key (`FrameTable.HasFrame`). The
buffer, a Python `dict` that keeps insertion order, is a sequence of
(key, entry) pairs. An entry, also a `dict`, is a sequence of (label, value)
pairs. The current time is a parameter `now`. The checkbox widgets are an
input: one `Option<bool>` per label. `None` means the box returns the value it
is created with; `Some(b)` means it returns `b`. `Scenario.FreshFolderSession`
states the outcome of a whole session on a fresh folder.

Two behaviours of the code shape the model:

- `merge_temp_labels` clears the buffer (app.py:192) before `main` attempts any upload (app.py:379-381), so a failed upload loses the buffered edits. `Session.MergeTempLabels` ends with an empty buffer whatever happens afterwards.
- The cursor is neither reset nor re-clamped when the view changes; only a button press clamps it, so `df.iloc[idx]` (app.py:254) can fail on a narrowed view. `Session.Navigation` returns `IndexError` in that case, and `EditSession.StaleCursorFails` exhibits it.

## Model

| member | source | states |
|---|---|---|
| Labels.Label.Index | app.py:14 | every label has a position inside `LABEL_COLUMNS`, and the column at that position is the label's own name |
| Labels.LabelColumnsDistinct | app.py:14 | the five label names are distinct, non-empty and contain no comma |
| Labels.Get | app.py:160 | `label_dict.get(lab_col, 0)`: the value the entry pairs with the key, or the default when no pair has that key |
| Labels.Assigned | app.py:162 | the listed keys are exactly the keys paired with 1, and there are no more of them than pairs |
| Labels.Join | app.py:166 | joining two or more parts puts a comma in the result, and the result is at least as long as its first part |
| Labels.UpdateClass | app.py:162-168 | the three-way class rule of the update branch always equals the comma-join of the keys with value 1 |
| Labels.PromoteClass | app.py:181-185 | the two-way class rule of the promote branch gives the same string as the update branch |
| Labels.SameClassOnBothBranches | app.py:162-168 | the update branch's class and the promote branch's class are the same string for every entry |
| Labels.ClassOfFullEntry | app.py:162-168 | for a full 0/1 entry, both branches' class is the set label names joined in column order |
| Labels.ClassExamples | app.py:162-185 | through the promote rule (app.py:181-185), no set flag gives `""` and a single set flag gives its name; through the update rule (app.py:162-168), Junk with Stricture gives `"Junk,Stricture"` |
| Labels.ClassDeterminesFlags | app.py:162-168 | two 0/1 flag vectors with the same class string are equal, so the class loses no information |
| Labels.ActiveNamesInjective | app.py:162 | over distinct names, the list of set names determines a 0/1 vector |
| Labels.HeadIsActive | app.py:162 | the first name is listed first exactly when its flag is 1 |
| Labels.ActiveNamesAmong | app.py:162 | every listed name is one of the column names |
| Labels.AssignedOfPairs | app.py:162 | the keys with value 1 of a name/value entry are the names whose value is 1, in order |
| Labels.GetOfPairs | app.py:159-160 | reading a label from an entry built from names and values gives that label's value |
| Labels.FullEntryIsPairs | app.py:288-291 | a full entry is the label names paired with its values |
| Labels.Pairs | app.py:288-291 | the entry has one pair per label, holding that label's name and value, in label order |
| Labels.FieldsOfJoin | app.py:166 | splitting a joined class at commas gives back the parts when none of them contains a comma |
| Labels.FieldsOfCommaFree | app.py:166 | splitting distributes over a comma-free prefix |
| Labels.JoinNonEmpty | app.py:163-166 | a join whose first part is non-empty is non-empty, so a class with a set flag is never `""` |
| Labels.JoinTwo | app.py:166 | joining two parts puts exactly one comma between them |
| Labels.JunkStrictureActive | app.py:162 | with Junk and Stricture set, the active keys are `["Junk", "Stricture"]` |
| FrameTable.HasFrame | app.py:156 | a key matches a row exactly when the key is a name and the row's frame cell holds it; an empty frame cell matches no key |
| FrameTable.Names | app.py:134-135 | the name set of an empty table is empty; membership is stated by `FrameTable.NamesMember` |
| FrameTable.Normalised | app.py:285 | a cell reads as 0 or 1, as 1 exactly when it holds 1, and as 0 when it is empty |
| FrameTable.FlagValues | app.py:282-286 | the row read as five 0/1 values: a value is 1 exactly when its cell holds 1; a null cell or any other number reads as 0 |
| FrameTable.FlagValuesOfCells | app.py:159-160 | label cells holding a 0/1 vector read back as that vector |
| FrameTable.NamesMember | app.py:134-135 | a name is known exactly when some row's frame cell holds it; null cells hold no name |
| FrameTable.NamesAppend | app.py:141 | the names of concatenated tables are the union of their names |
| FrameTable.UniqueAppend | app.py:141 | concatenated tables have unique frames exactly when each does and they share no name |
| Schema.EnsureColumns | app.py:119-127 | the columns become the old columns followed by the missing required columns in required order; the rows are unchanged |
| Schema.MissingColumns | app.py:123-126 | a column is added exactly when it is required and absent |
| Schema.EnsureColumnsStep | app.py:124-126 | each loop iteration adds its column exactly when the original table lacked it |
| Schema.MissingColumnsSnoc | app.py:124-126 | the missing list of a longer required list extends the missing list of the shorter one |
| Schema.RequiredColumnsDistinct | app.py:123-124 | the base and label columns are ten distinct names |
| Schema.EnsureColumnsComplete | app.py:119-127 | afterwards every required column is present and the old columns keep their positions |
| Schema.AddedColumnsAreNull | app.py:126 | in a table that conforms to its columns (`Schema.Conforms`, the model's form of "the sheet had no such column"), every cell of an added column is null |
| Schema.NothingMissing | app.py:125 | nothing is added when every required column is present |
| Schema.EnsureColumnsIdempotent | app.py:119-127 | normalising a normalised table adds nothing |
| Registry.Discovered | app.py:139 | a discovered row carries the file name as its frame |
| Registry.FileNames | app.py:138 | the listing's names in listing order |
| Registry.NewRows | app.py:137-139 | at most one row per listed file; every row is a bare `{frame: name}` row whose name is not known |
| Registry.NewRowsNames | app.py:137-139 | a name is appended exactly when it is listed and known to neither table |
| Registry.NewRowsFrom | app.py:137-139 | each iteration appends the file's row exactly when its name is unknown |
| Registry.AppendStep | app.py:137-139 | one iteration extends the accumulated rows by the file's row exactly when its name is unknown, keeping them a prefix of the answer |
| Registry.SyncUnlabeled | app.py:129-142 | the result is the old unlabeled rows followed by one row per unknown listed name, in listing order; the labeled table is not an output |
| Registry.NoNewRows | app.py:140-141 | when every listed name is known, nothing is appended |
| Registry.SyncIdempotent | app.py:129-142 | running the sync again with the same listing appends nothing |
| Registry.NullFramesAreNotKnown | app.py:134-135 | rows with a null frame cell do not change which names are new |
| Registry.SyncKeepsUnique | app.py:129-142 | with a listing that names each file once, frame names stay unique across both tables |
| Registry.NewRowsUnique | app.py:137-139 | the appended rows have distinct frames when the listing's names are distinct |
| Registry.RepeatedNameAppendedTwice | app.py:134-139 | a new name listed twice is appended twice, because the known sets are computed once |
| Merge.MergedFlags | app.py:159-160 | every label cell, by position and by label, is `Some` of the entry's value for that label, 0 when absent |
| Merge.Relabeled | app.py:159-169 | a relabeled row keeps its frame, movie and pillcam and gets the merged label cells, the update class and the date `now` |
| Merge.Promoted | app.py:173-185 | a promoted row carries the key as its frame, the merged label cells, the promote class, empty movie and pillcam strings and the date `now` |
| Merge.FindFrameFrom | app.py:157 | the first position at or after the start whose row carries the frame, or none when no such row exists |
| Merge.FindFrame | app.py:156-157 | the first labeled row carrying the frame, or none exactly when no labeled row carries it |
| Merge.FindFrameNames | app.py:156 | a labeled row is found exactly when the frame name is known to the labeled table |
| Merge.WithoutFrame | app.py:189 | the kept rows are exactly the rows not carrying the key, never more than before |
| Merge.MergeStep | app.py:155-190 | one entry adds a labeled row exactly when no labeled row carries the frame, and never adds unlabeled rows |
| Merge.MergeAll | app.py:154-191 | the fold adds at most one labeled row per entry, removes none, and never grows the unlabeled table |
| Merge.MergeAllFrom | app.py:154 | merging from position `i` is the step for entry `i` followed by the merge from `i + 1` |
| Merge.WriteLabelCells | app.py:159-160 | every label cell takes the entry's value, 0 when the entry lacks the label |
| Merge.MergeOne | app.py:155-190 | one iteration of the loop computes exactly the merge step for its entry |
| Merge.MergeEntries | app.py:153-191 | the tables become the fold of the merge step over the buffer in buffer order; the count is the number of entries |
| Merge.UpdateBranch | app.py:156-170 | only the first matching labeled row changes; it gets the buffered flags, the re-derived class and `now`; frame, movie and pillcam are kept; no row is added; the unlabeled table is untouched |
| Merge.PromoteBranch | app.py:171-190 | exactly one labeled row is appended; every unlabeled row carrying the frame is removed; the others stay in order |
| Merge.MergedFlagsOfFullEntry | app.py:159-160 | a full 0/1 entry writes its own values into the label cells |
| Merge.FullEntryRowsConsistent | app.py:158-190 | after either branch with a full 0/1 entry, the row's class agrees with its label cells |
| Merge.NamesReplace | app.py:158-169 | relabeling a row in place keeps the table's frame names |
| Merge.UniqueReplace | app.py:158-169 | relabeling a row in place keeps frames unique |
| Merge.NamesOfFilter | app.py:189 | filtering rows never adds a frame name |
| Merge.UniqueFilter | app.py:189 | filtering rows keeps frames unique |
| Merge.WithoutFrameNames | app.py:189 | removing a frame's rows removes exactly that name |
| Merge.StepNames | app.py:155-190 | after one entry the labeled names grow by exactly the entry's frame |
| Merge.StepKeepsUnique | app.py:155-190 | one entry keeps frame names unique across both tables |
| Merge.UpdateKeepsUnique | app.py:156-170 | the update branch keeps frame names unique across both tables |
| Merge.PromoteKeepsUnique | app.py:171-190 | the promote branch keeps frame names unique across both tables |
| Merge.StepRemovesFromUnlabeled | app.py:155-190 | after one entry the frame is not in the unlabeled table, given unique frames |
| Merge.StepShrinksUnlabeled | app.py:155-190 | one entry only removes unlabeled rows |
| Merge.MergeEmptyBuffer | app.py:148-151 | merging an empty buffer leaves both tables unchanged |
| Merge.MergeKeepsLabeledNames | app.py:153-191 | no labeled frame is lost by a merge |
| Merge.MergeShrinksUnlabeled | app.py:153-191 | a merge only removes unlabeled rows |
| Merge.MergeLabelsEveryBufferedFrame | app.py:153-191 | after the merge every buffered frame is in the labeled table |
| Merge.MergeKeepsUnique | app.py:153-191 | a merge keeps frame names unique across both tables |
| Merge.MergeEmptiesUnlabeledOfBufferedFrames | app.py:153-191 | after the merge no buffered frame is left in the unlabeled table, given unique frames |
| Filters.Tagged | app.py:213-216 | every row is kept in order and marked labeled or unlabeled |
| Filters.Base | app.py:218-223 | "All" gives the labeled rows tagged labeled followed by the unlabeled rows tagged unlabeled, "Labeled" the labeled rows, any other status the unlabeled rows, each in table order and with its length |
| Filters.View | app.py:211-236 | the reference view: rows of the status base, no more of them, each matching the movie, pillcam and label selection |
| Filters.ApplyFilters | app.py:211-236 | the successive filters compute the view: the status base narrowed by the movie, pillcam and every selected label |
| Filters.MovieStep | app.py:225-226 | the movie filter is the movie facet of the combined predicate |
| Filters.PillcamStep | app.py:228-229 | the pillcam filter adds the pillcam facet to the combined predicate |
| Filters.LabelStep | app.py:231-234 | each label filter adds that label to the conjunctive selection |
| Filters.FilterKeepsAll | app.py:225-234 | a filter that every row passes changes nothing |
| Filters.ViewMembers | app.py:211-236 | a row is shown exactly when it is in the status base, matches the movie and pillcam unless "All", and has every selected label equal to 1 |
| Filters.ViewIsSubsequence | app.py:211-236 | the view is an order-preserving subsequence of its status base |
| Filters.AllIsLabeledThenUnlabeled | app.py:218-219 | "All" shows the filtered labeled rows followed by the filtered unlabeled rows |
| Filters.MoreLabelsNarrow | app.py:231-234 | selecting one more label keeps exactly the old view's rows that carry it, in order |
| Filters.TwoLabelsAreConjunctive | app.py:231-234 | two selected labels keep exactly the rows carrying both |
| Commit.Present | app.py:61 | a missing file id and an empty one are both treated as absent |
| Commit.CommitOutcome | app.py:375-384 | nothing is written exactly when the count is 0; otherwise there is one write for a non-empty labeled id plus one for a present unlabeled id, the labeled sheet first, each to its own file id |
| EditSession.Session.constructor | app.py:273-274 | a new session starts with an empty, valid buffer and no cursor |
| EditSession.Keys | app.py:293 | the buffer's keys in insertion order |
| EditSession.Lookup | app.py:278 | an entry is found exactly when the key is buffered, and the found entry is the one paired with that key |
| EditSession.Put | app.py:293 | after the write, the key reads back the new entry; every pair is old or the new one |
| EditSession.PutOthers | app.py:293 | the write leaves every other key's entry as it was |
| EditSession.PutKeys | app.py:293 | an existing key keeps its place; a new key is appended last |
| EditSession.PutFullEntryKeepsValid | app.py:288-293 | writing a full entry keeps the buffer a dictionary of full 0/1 entries |
| EditSession.PutKeepsDistinct | app.py:293 | writing one key never makes a key occur twice |
| EditSession.PutLookedUp | app.py:293 | writing back a key's own entry leaves the buffer unchanged |
| EditSession.CurrentValues | app.py:278-286 | one starting value per label; with no buffered entry, or an empty one, they are the row's cells read as 0/1 |
| EditSession.CurrentValuesOfFullEntry | app.py:278-290 | with a full entry buffered for the frame, the starting values are exactly that entry's values |
| EditSession.AsCreatedFullEntry | app.py:288-291 | boxes that return their starting values, started from a full entry, rebuild that same entry |
| EditSession.Checkbox | app.py:290-291 | a box reads 0 or 1; a state of its own decides it, and otherwise it shows 1 exactly when its starting value is 1 |
| EditSession.EditedValues | app.py:288-291 | five 0/1 values, one per checkbox |
| EditSession.SeedFromRow | app.py:280-286 | the fallback dictionary pairs every label with the row's cell read as 0/1 |
| EditSession.ReadCheckboxes | app.py:288-291 | the updated dictionary pairs every label with its checkbox value and is a full 0/1 entry |
| EditSession.StartingValues | app.py:278-286 | the dictionary the checkboxes start from holds the starting values for every label |
| EditSession.Session.LabelingUi | app.py:272-293 | the frame's buffered entry becomes the five labels paired with the checkbox values, seeded from the buffer or the row; the buffer stays valid |
| EditSession.RevisitAsCreatedKeepsBuffer | app.py:278-293 | showing an already buffered frame, with every box returning its starting value, leaves the buffer unchanged |
| EditSession.FirstVisitSeedsFromRow | app.py:278-293 | on a first visit, with every box returning its starting value, the buffered entry is the row's own cells read as 0/1, and the frame is added as the last key |
| EditSession.ClickDecides | app.py:289-291 | a box that returns a value of its own decides its label's buffered value, whatever the row or the buffer held |
| EditSession.MoveCursor | app.py:246-251 | no press keeps the cursor; Previous gives `i-1`, or 0 from 0; Next gives `i+1` while that lies inside the view and `len-1` otherwise |
| EditSession.Session.Navigation | app.py:238-255 | an empty view shows nothing and leaves the cursor; otherwise the cursor starts at 0 if unset, moves, and its row is shown, or an index error is returned when it lies beyond the view |
| EditSession.CursorStaysInView | app.py:246-251 | a cursor inside the view stays inside it |
| EditSession.StaleCursorFails | app.py:253-254 | a cursor of 3 on a view of 2 rows stays at 3 without a press, so the row lookup fails; Next brings it back inside |
| EditSession.Session.MergeTempLabels | app.py:144-193 | an empty buffer returns both tables unchanged with count 0; otherwise the tables become the merge fold; the count is the number of entries and the buffer is empty afterwards |
| EditSession.Session.UpdateExcel | app.py:375-384 | merge, then write back exactly when the buffer was non-empty; the buffer is empty afterwards |
| Scenario.DiscoverBoth | app.py:134-139 | on an empty registry both listed files are discovered, in listing order |
| Scenario.PromoteFirst | app.py:171-189 | promoting f1.png with Ulcer set appends the row `Row1` and removes f1.png from the unlabeled table |
| Scenario.PromoteSecond | app.py:171-189 | promoting f2.png with an empty entry appends the row `Row2` and leaves the unlabeled table empty |
| Scenario.FreshFolderSession | app.py:129-193 | for two new files, one labeled Ulcer and one with no label, both are discovered, both become the labeled rows `Row1` and `Row2` with classes `"Ulcer"` and `""`, and none stays unlabeled |

## Left out

- Google Drive authentication, XLSX download and upload, folder listing with page tokens, image download and display: the model is pure computation. The listing is an input sequence, and an upload is an `Outcome` write.
- The Streamlit widgets and rendering (sidebar option lists, checkboxes, buttons, messages, charts, usage text): their outputs are inputs to the model (status, facets, label selection, checkbox states, presses).
- `time.strftime`: the timestamp is a parameter. One value is used for a whole merge, whereas the code reads the clock once per entry.
- pandas dtype coercion: a label cell is an optional integer and every other cell an optional string. Floating-point values such as `1.0` are not distinguished from `1`.
- The `lab in df_show.columns` guard (app.py:233): tables are normalised before filtering, so every label column is present and the guard always holds.
- A table without a `frame` column, which would raise `KeyError`: tables are normalised, so this cannot happen.
- Aliasing: `ensure_columns` mutates its argument in place and the merge writes through `.at` into the caller's frame. The model returns new values, as `main` rebinds every result.
- EditSession.CurrentValues: a buffered entry lacking a label reads that label as 0. The code would raise `KeyError` there, but `labeling_ui` only ever buffers full entries (`Session.Valid`).
- EditSession.Session.Navigation: the printed "Found N frame(s)" count is not modelled.
- A Drive file id that is missing from configuration at load time is not modelled, because it is network I/O.
- Spreadsheet columns other than the ten required ones: pandas carries them through every operation, but a `Record` holds only the required cells, so such columns are dropped by the model.
- Streamlit widget state: the checkboxes at app.py:290 have no `key`, so a box created with the same label and starting value as on the previous run returns its stored state. A tick on one frame can therefore carry over to the next frame shown. The model does not derive this; the `Some` checkbox input covers the carried-over value, and `EditSession.ClickDecides` states its effect.
