# showtool: the episode table, in Dafny

showtool lists the video files of a TV show in a table and lets the user
fix the episode each file stands for. Its core is `tv_table_model.py`:

- `TVModelEntry`: parses a season and an episode number out of a file
  name, and orders entries by season, episode and "has the user pinned an
  episode number".
- `TVTableModel`: after every change it sorts the entries and then
  *renumbers* them. Pinned entries go to the slot they are pinned to; the
  others fill the remaining slots in sorted order; then every entry's
  derived episode becomes its slot number. The list it keeps is therefore
  in slot order, which need not be sorted by `<`: a file pinned to 1 moves
  to the front even when its parsed episode is the highest.

This project models that core and proves what it does.

| file | models |
|---|---|
| `options.dfy` | `Option`, for Python's `None` |
| `parser.dfy` | `Path(...).name` and the two `re.finditer` scans of the constructor |
| `model_entry.dfy` | `TVModelEntry` as a value, its constructor, `__eq__`, `__lt__`, `__gt__` |
| `sorting.dfy` | `sorted(entries)` / `entries.sort()`, a stable sort on `__lt__` |
| `renumbering.dfy` | what `_renumber_entries` computes, as functions, and the precondition it needs |
| `table_model.dfy` | `TVTableModel` as a class: `consume_data`, `_renumber_entries` with its loops, `setData` |

How the model works:

- **Renumbering specification.** It is stated in three stages:
  - `Place`: the first loop, pinned entries to slot `m - 1`.
  - `Fill`: the second loop, free entries into the empty slots from left to right.
  - `Number`: the third loop, derived episode `i + 1`.

  `Renumbered` is their composition.
- **The methods.** `TableModel.TVTableModel.RenumberEntries` runs the three
  loops over an array of slots and is proved to produce exactly
  `Renumbered`. The lemmas beside `Renumbered` state what the result means:
  - a permutation;
  - pinned entries at their slots;
  - free entries in their old order;
  - derived episodes `1..N`.
- **The precondition.** Renumbering needs pinned values that are distinct
  and in `1..N` (`OverridesValid`). The source never checks this.
  `PinKeepsValid` characterises exactly the `setData` values that keep it.
- **The parser.** The constructor's scan loop is `Parser.ScanMarkers`. It is
  proved equal to the declarative "value of the last match" (`LastMarkerValue`).

## Model

| member | source | states |
|---|---|---|
| Parser.BaseName | tv_table_model.py:25-33 | the file name taken from a path has no `/` and is never `.` |
| Parser.BaseNameOfJoin | tv_table_model.py:25-33 | whatever directory precedes a plain file name, the name read back is that file name |
| Parser.RunEnd | tv_table_model.py:34-35 | the greedy `[0-9]+`: every character up to the end is a digit, and the run stops at a non-digit or at the end |
| Parser.LastMarker | tv_table_model.py:37-38 | the position found is a match and no later match exists; `None` exactly when there is no match |
| Parser.LastMarkerValue | tv_table_model.py:34-51 | the field is -1 exactly when the name has no match; otherwise it is the number captured by the last match |
| Parser.ReadNumber | tv_table_model.py:40-41 | `int(match.group(1))`: reads the whole digit run and returns its decimal value |
| Parser.ScanMarkers | tv_table_model.py:37-51 | the loop over the matches, each overwriting the field, ends with the value of the last match (or -1) |
| Parser.ParseName | tv_table_model.py:33-51 | the (season, episode) pair read from a file name: each field is the value of the last match of its own pattern, or -1 (`LastMarkerValue`; examples in the three rows below) |
| Parser.ParseLastMatchWins | tv_table_model.py:37-51 | "S1.S2E7.mkv" parses as season 2, episode 7: the last match wins, per field |
| Parser.ParseSeasonAndEpisode | tv_table_model.py:34-51 | "Show S02E05.mkv" parses as season 2, episode 5 (leading zeros dropped) |
| Parser.ParseNoMarkers | tv_table_model.py:29-30 | "random.mkv" keeps season and episode at -1 |
| ModelEntry.NewEntry | tv_table_model.py:24-51 | the constructor keeps the path, sets the title to "unknown" whatever is passed, sets (season, episode) to `ParseName` of the file name (the `filename` property), so the three parse examples apply to it, with no pin and derived episode -1 |
| ModelEntry.EntryIgnoresDirectory | tv_table_model.py:25-33 | the season and episode of an entry depend only on its file name, not on its directory |
| ModelEntry.EffectiveEpisode | tv_table_model.py:57-58 | the pinned value when there is one, the parsed episode otherwise; every comparison below goes through it |
| ModelEntry.Eq | tv_table_model.py:53-70 | `__eq__`: holds exactly when season, effective episode and pinned-ness agree, and is an equivalence (`EqIsKeyEquality`) |
| ModelEntry.Lt | tv_table_model.py:72-82 | `__lt__`: irreflexive (`LtIrreflexive`); within a season the key order (`LtWithinSeason`); not asymmetric across seasons (`LtNotAsymmetricAcrossSeasons`) |
| ModelEntry.Gt | tv_table_model.py:84-94 | `__gt__`: for every pair, `a > b` exactly when `b < a` (`GtIsConverseOfLt`) |
| ModelEntry.EqIsKeyEquality | tv_table_model.py:53-70 | `__eq__` holds exactly when season, effective episode and pinned-ness agree; it is an equivalence |
| ModelEntry.EqExcludesLt | tv_table_model.py:53-82 | equal entries are never `<` either way |
| ModelEntry.LtIrreflexive | tv_table_model.py:72-82 | no entry is `<` itself |
| ModelEntry.GtIsConverseOfLt | tv_table_model.py:72-94 | `a > b` is `b < a` for every pair of entries |
| ModelEntry.LtWithinSeason | tv_table_model.py:53-82 | within a season `<` is the order on (effective episode, pinned-ness), and exactly one of `<`, `==`, `>` holds |
| ModelEntry.LtNotAsymmetricAcrossSeasons | tv_table_model.py:72-82 | across seasons `<` is not an order: season 1 episode 5 and season 2 episode 3 are each `<` the other |
| ModelEntry.KeyLessIsStrictWeakOrder | tv_table_model.py:76-82 | the order on (effective episode, pinned-ness) is a strict weak order, so sorting within a season is well defined |
| Sorting.Insert | tv_table_model.py:181 | inserting adds exactly that entry: one longer, same multiset plus the entry |
| Sorting.SortEntries | tv_table_model.py:181 | sorting is a permutation of the entries |
| Sorting.SortOrdersOneSeason | tv_table_model.py:181 | entries of one season come out ordered by `<`: no entry is `<` one before it |
| Sorting.WithKey | tv_table_model.py:181 | the entries with a given (effective episode, pinned-ness) key, in order: each has that key |
| Sorting.InsertIsStable | tv_table_model.py:181 | within a season, inserting never moves an entry past another with the same key |
| Sorting.SortIsStable | tv_table_model.py:181 | within a season the sort is stable: for every key, the entries with that key come out in their input order |
| Renumbering.SlotConsistentIsValid | tv_table_model.py:205-209 | a list whose pins match their slots meets the renumbering precondition, and pin `m` is at index `m - 1` |
| Renumbering.NoOverridesValid | tv_table_model.py:179-182 | entries without pins, as the constructor makes them, can always be renumbered |
| Renumbering.OverridesUpdate | tv_table_model.py:264-266 | pinning one row swaps that row's old pin for the new one in the multiset of pins |
| Renumbering.PinKeepsValid | tv_table_model.py:258-268 | on a renumbered table, pinning a row to `v >= 1` keeps renumbering safe exactly when `v <= N` and no other row holds `v` |
| Renumbering.Free | tv_table_model.py:199-200 | the entries the cursor may hand out: none of them is pinned |
| Renumbering.Partition | tv_table_model.py:187-203 | the pinned and the free entries together are all the entries |
| Renumbering.Place | tv_table_model.py:186-192 | after the first loop every filled slot `i` holds an entry of the list pinned to `i + 1` |
| Renumbering.PlaceCounts | tv_table_model.py:186-192 | with a valid precondition the first loop fills one slot per pinned entry, each pinned entry once, and leaves `N - pinned` slots empty |
| Renumbering.PlaceOverridden | tv_table_model.py:186-192 | the entry pinned to `m` is the one in slot `m - 1` after the first loop |
| Renumbering.FillAt | tv_table_model.py:194-203 | a filled slot keeps its entry; the k-th empty slot gets the k-th free entry |
| Renumbering.FillIsPermutation | tv_table_model.py:194-203 | the second loop puts out exactly the placed and the free entries |
| Renumbering.FillKeepsFreeOrder | tv_table_model.py:194-203 | reading the free entries back from the filled table gives them in the order they went in |
| Renumbering.Arrange | tv_table_model.py:185-205 | the order after the first two loops: as long as the input, a permutation of it (`ArrangeIsPermutation`), pins at their slots (`OverriddenLandsInSlot`), free entries in input order (`FreeKeepOrder`) |
| Renumbering.Number | tv_table_model.py:206-209 | the third loop: the same length, and slot `i` gets derived episode `i + 1` (`RenumberedIsNumbered`) |
| Renumbering.Renumbered | tv_table_model.py:185-209 | what `_renumber_entries` leaves: `Number` of `Arrange`, numbered `1..N` with every pin at its slot (`RenumberedIsNumbered`) |
| Renumbering.ArrangeIsPermutation | tv_table_model.py:185-205 | renumbering only moves entries: the result is a permutation of the input |
| Renumbering.OverriddenLandsInSlot | tv_table_model.py:186-192 | an entry pinned to `m` ends at index `m - 1` |
| Renumbering.FreeKeepOrder | tv_table_model.py:194-203 | unpinned entries keep their relative order |
| Renumbering.ArrangeSlotConsistent | tv_table_model.py:185-205 | every slot holds the entry pinned to it or an unpinned entry |
| Renumbering.RenumberedIsNumbered | tv_table_model.py:205-209 | the entry at index `i` has derived episode `i + 1`, and the result can be renumbered again |
| Renumbering.ArrangeOfUnpinned | tv_table_model.py:185-205 | with no entry pinned, renumbering keeps the order |
| Renumbering.FreshSeasonInEpisodeOrder | tv_table_model.py:179-209 | freshly loaded files of one season get derived episodes `1..N` in ascending parsed episode |
| Renumbering.InsertKeepsOverrides | tv_table_model.py:181 | inserting an entry adds its pin to the multiset of pins |
| Renumbering.SortKeepsOverrides | tv_table_model.py:267 | sorting keeps the multiset of pins, so it keeps the renumbering precondition |
| TableModel.CursorInBounds | tv_table_model.py:199 | while empty slots remain, the cursor is inside the list |
| TableModel.NextFree | tv_table_model.py:199-203 | the first unpinned entry at or after the cursor is the next free entry |
| TableModel.PlaceOverrides | tv_table_model.py:186-192 | the first loop builds exactly the slot table `Place` |
| TableModel.AdvanceCursor | tv_table_model.py:199-200 | the inner `while` stops on an unpinned entry, inside the list, having skipped no free entry |
| TableModel.FillEmptySlots | tv_table_model.py:194-203 | after the second loop slot `t` holds entry `t` of the arrangement |
| TableModel.TVTableModel.constructor | tv_table_model.py:165-168 | a new table is empty |
| TableModel.TVTableModel.ConsumeData | tv_table_model.py:179-183 | the table becomes the sorted, renumbered input, of the same length |
| TableModel.TVTableModel.RenumberEntries | tv_table_model.py:185-209 | the entries become `Renumbered` of the old entries, and the table is renumbered |
| TableModel.SetDataAccepts | tv_table_model.py:261-263 | the guard of `setData`: `int` succeeded with a value of at least 1; `SetData` accepts exactly when it holds, and the two Guard lemmas show what it lets through |
| TableModel.TVTableModel.SetData | tv_table_model.py:258-272 | accepted exactly when `int` succeeded with a value of at least 1; a refusal changes nothing; an accepted value pins the row, re-sorts and renumbers |
| TableModel.TVTableModel.SetDataChecked | tv_table_model.py:258-268 | also refuses values above N and values another row holds; on a renumbered table it either pins, re-sorts and renumbers or changes nothing |
| TableModel.GuardAdmitsOutOfRange | tv_table_model.py:261-263 | the guard of `setData` accepts a value that names a slot past the table |
| TableModel.GuardAdmitsDuplicate | tv_table_model.py:261-263 | the guard of `setData` accepts a duplicate value; with two entries both pinned to 1, the first loop leaves exactly one empty slot and no free entry to fill it |

## Left out

- Qt presentation and notification are not modelled, because they only display the table or notify views:
  - `rowCount`, `columnCount`, `headerData`, `data` and `flags`;
  - the column lambdas;
  - `beginResetModel`/`endResetModel`.
- `full_path`, `parent_dir` and `path_at_index` are not modelled: they need the file system's absolute path, which is I/O.
- `video_preview.py` and `main.py` are not part of this model: they are the GUI around the table.
- Entries are values, not shared objects. The source mutates entry objects in place (`manual_episode`, `derived_episode`), and other references to the same object would see those changes. The model returns new entry values in a new list, so aliasing is not captured.
- `int(value)` on arbitrary Qt values is not modelled. `SetData` receives its outcome: `None` when it raised `ValueError`, `Some(n)` otherwise.
- `Parser.ScanMarkers`: the `ValueError` branch of the constructor's scan is not modelled, nor its `print`. `int` raises it on a digit run only beyond 4300 digits (CPython 3.11 and later), and a file name is at most 255 bytes on common file systems. On such a run the source would keep the previous value of the field.
- `Parser.BaseName`: models POSIX paths only. Windows drive letters and backslashes are not modelled.
- `Sorting.SortEntries` is a stable insertion sort on `__lt__`, standing in for Python's sort:
  - Within one season `__lt__` is a strict weak order and the sort is stable (`SortIsStable`), so it gives the result of Python's stable sort.
  - Across seasons `__lt__` is not an order, so the exact output of Python's sort there is not claimed; only that the result is a permutation.
- `@total_ordering`'s derived `__le__`/`__ge__` are not modelled: the table never uses them.
- `TableModel.TVTableModel.SetData`: two failures of the source are preconditions here, because each raises an uncaught `IndexError`:
  - A row `>= N` (or `< -N`) fails at `self.entries[index.row()]` (line 264), before `beginResetModel`, the pin and the sort. The table is left untouched; the model does not describe the exception.
  - Negative rows are not modelled (`row` is a `nat`). Python counts a row in `-N..-1` from the end of the list, so row -1, the row of an invalid `QModelIndex`, would pin the last entry. Qt never passes such a row to `setData`.
  - A value that breaks renumbering (above N, or already held) fails inside `_renumber_entries` (line 192 or 199). By then the entry is pinned and the list sorted, and `beginResetModel` has no matching `endResetModel`. The model does not describe this half-updated state; see Findings.
- Renumbering's precondition (distinct pins in `1..N`) is a precondition and not a refusal, because nothing in the code checks it:
  - `setData` does not refuse a value above N; see Findings.
  - Duplicate pins do not silently overwrite each other: the entry placed later takes the slot, then the cursor runs past the end of the list.

## Findings

| source | as written | input that shows it | evidently intended | confidence | as-written member | corrected member |
|---|---|---|---|---|---|---|
| tv_table_model.py:261-268 | `setData` refuses only values below 1, then pins, sorts and renumbers | one entry, value 2: `entries[ep-1]` indexes slot 1 of a one-slot list (line 192) | refuse values above the number of entries before renumbering | medium, not executed | TableModel.GuardAdmitsOutOfRange | TableModel.TVTableModel.SetDataChecked |
| tv_table_model.py:259-268 | no check that the value is free (the TODO at line 259 says so) | two entries, the first pinned to 1, pin the second to 1: both are pinned, the first loop leaves one empty slot and there is no free entry, so the `while` at line 199 indexes past the end | refuse a value another row already holds | medium, not executed | TableModel.GuardAdmitsDuplicate | TableModel.TVTableModel.SetDataChecked |
