# Jotterbox note engine

A model in Dafny of the note storage and query engine of Jotterbox
(`Jotterbox.py`, the nested classes `App.Note` and `App.Notebook`), with
proofs about it.

- A note is one tab-separated line of a partition file: the timestamp's text
  form, the text, and the tags joined with spaces.
- A notebook keeps its notes in a dictionary keyed by timestamp. It also keeps
  the notes deleted since the last save, a tag index (`tag_dict`: tag to
  timestamp to note, with no empty bucket) and the list of files already
  loaded.
- `save` groups the live notes and the deleted ones by file and rewrites each
  file in turn. A new file is written sequentially. In an existing file,
  deleted notes blank their slot, new notes are appended and the others
  overwrite their slot, and a `while`/`pop` loop then compacts the blanks away.
- `query` sorts the timestamps and binary-searches for the first note on or
  after `range_start`, walking back over notes of the same date. It then scans
  forward until `range_end` and keeps the notes that carry one of the filter
  tags.

The modules follow the structure of the program:

| module | file | what it holds |
|---|---|---|
| `Common` | common.dfy | `Option`, `Result`, the Python exceptions raised (`PyError`), `Distinct` |
| `Time` | time.dfy | timestamps (ordinal day and time of day), their text form, `sorted` |
| `Text` | text.dfy | `join`, `split`, `filter(None, …)`, decimal digits |
| `Notes` | note.dfy | the `Note` class, `serialise`, `deserialise` and the codec round trip |
| `TagIndex` | tag_index.dfy | the tag index as a value, the tag operations on it, and exactness |
| `FileStore` | file_store.dfy | `save_notes_to_file`: the per-file rewrite and compaction |
| `Persist` | persist.dfy | what loading enters, the loaded-files list, the grouping of `save` |
| `Query` | query.dfy | the binary search, the walk back and the scan of `query` |
| `Notebooks` | notebook.dfy | the `Notebook` class and its methods |

State that the source changes in place is in classes. `Note` is a class with
the fields `timestamp`, `file`, `fileLine`, `text`, `tags` and `deleted`.
`Notebook` holds `notes` (a `map`), `order` (the dictionary's insertion
order, which `save` iterates), `notesDeleted`, `tagDict` and `loadedFiles`.

Each method is proved against a function of the values it reads. For example,
`RemoveTagFromNote` is proved against `RemoveTag` and `SaveNotesToFile`
against `Rewrite`. The properties the source promises are lemmas about those
functions. The invariant that the tag index is exactly the index of the notes'
tags is `Matches(tagDict, PairsOf(TagsOf()), notes)`. Lemmas show
that each operation keeps it (`*KeepsExact`), or fails to keep it
(`DeleteLeavesIndexStale`).

The file system is a value `map<FileId, seq<string>>` (a file is its list of
lines), passed in and returned. The clock (`now`, `today`) and the directory
listing are parameters.

Some behaviours of the code are easy to miss. The model follows them:

- `create_note` replaces a note already under the same timestamp, keeping its
  place in the dictionary. It raises nothing. The new note's tags are set
  starting from its own empty list, so the replaced note's entries for tags
  the new note lacks stay in `tag_dict`, still pointing at the replaced note,
  and the index is no longer exact (`TagIndex.CreateOverExistingLeavesIndexStale`).
  Loading can do this: `load_all_files` reads every `.tsv` file in the
  directory, and two of them can hold the same timestamp. The exactness
  lemmas for creating and loading notes (`TagIndex.CreateKeepsExact`,
  `Persist.LoadKeepsExact`) assume that the timestamps are new.
- `add_tag_to_note` appends the tag even when the note already carries it.
- `delete_note` leaves every second tag behind (see Findings).
- `query` can return nothing when no note falls on `range_start` (see Findings).
- `save` clears `notes_deleted` before any file is rewritten
  (Jotterbox.py:174). When a rewrite raises, the pending deletions are lost,
  not kept for a retry. `Notebook.Save` ensures `notesDeleted == []` whether
  or not an exception was raised.
- A notebook opened without a title (`title=None`) cannot name its partition
  files. `load` raises TypeError, and so does `save` as soon as a live note
  has no file. In that case nothing has changed yet.
- `serialise` does not escape tabs (Jotterbox.py:113-119). A text `a\tb` is
  read back as the text `a` with the tags of `b`, and the note's own tags,
  now a fourth field, are dropped (`Notes.TabInTextSplits`). The codec round
  trips therefore assume text without tabs.
- Malformed lines raise the Python exceptions `IndexError` and `ValueError`.
  Loading stops at the first malformed line, keeps the notes entered before it
  and does not record the file as loaded.

## Model

| member | source | states |
|---|---|---|
| Time.IsoFormat | Jotterbox.py:115 | the text form of a timestamp holds no tab, space or newline, so it stays one field of a line |
| Time.IsoFormatRoundTrip | Jotterbox.py:115-127 | reading back the text form of a timestamp gives that timestamp |
| Time.Sort | Jotterbox.py:324 | `sorted` of distinct timestamps: strictly ascending, same length, same elements |
| Text.Split | Jotterbox.py:123 | `split` gives at least one piece, no piece holds the separator, and joining the pieces gives back the string |
| Text.SplitInnerSeparator | Jotterbox.py:117-123 | a separator inside the middle of three joined parts splits it in two: the split gives four pieces |
| Text.SplitJoin | Jotterbox.py:117-123 | splitting the join of separator-free parts gives back the parts |
| Text.NonEmpty | Jotterbox.py:129 | `filter(None, …)` keeps every non-empty string with its number of occurrences and drops every empty one: the multiset of the result is that of the input less all empty strings |
| Text.NonEmptyAppend | Jotterbox.py:129 | the filter keeps order: filtering a concatenation is concatenating the filtered parts |
| Text.NonEmptyKeepsAll | Jotterbox.py:129 | a list without empty strings passes `filter(None, …)` unchanged |
| Text.ParseDecimal | Jotterbox.py:127 | a number parses exactly when the text is non-empty and all digits |
| Text.DecimalRoundTrip | Jotterbox.py:115-127 | parsing the decimal text of a number gives that number |
| Notes.Note.constructor | Jotterbox.py:101-111 | a new note has the timestamp given, no file, no line, no text, no tags, and is not deleted |
| Notes.Deserialise | Jotterbox.py:122-130 | a parsed line carries the file and line number given, a text without tabs and only non-empty tags without tab or space; ValueError exactly when the first field is not a timestamp, checked before the field count; a timestamp followed by fewer than two more fields is IndexError |
| Notes.DeserialiseThreeFields | Jotterbox.py:122-130 | three fields whose first is a timestamp's text form parse to that timestamp, the second field as text and the non-empty pieces of the third as tags |
| Notes.LineFieldsRoundTrip | Jotterbox.py:113-130 | parsing a serialised line gives back the timestamp and text, and the non-empty pieces of the joined tags |
| Notes.TagsRoundTrip | Jotterbox.py:117-129 | splitting the space-joined tags and dropping empty pieces gives the non-empty tags |
| Notes.CodecRoundTrip | Jotterbox.py:113-130 | for text without tabs and tags without tab or space, `deserialise` after `serialise` gives the same timestamp, text and non-empty tags, with the file and line given |
| Notes.NoteRoundTrip | Jotterbox.py:113-130 | a note with text and non-empty, tab- and space-free tags serialises, and its line parses back to exactly its timestamp, text and tag list |
| Notes.TabInTextSplits | Jotterbox.py:113-130 | a note text with a tab reads back cut at the tab: the part after it becomes the tags, and the note's own tags are lost |
| TagIndex.AddEntry | Jotterbox.py:298-301 | the tag becomes a key, its bucket maps the timestamp to the note, and every other entry and bucket stays as it was |
| TagIndex.DropEntry | Jotterbox.py:305-307 | the timestamp leaves the tag's bucket; the tag stays a key exactly when other entries remain; other buckets are unchanged |
| TagIndex.FirstIndex | Jotterbox.py:304 | the first position of the tag in the list |
| TagIndex.RemoveFirst | Jotterbox.py:304 | `list.remove` makes the list one shorter |
| TagIndex.RemoveFirstCount | Jotterbox.py:304 | `list.remove` takes away one occurrence of the element and nothing else |
| TagIndex.RemoveTag | Jotterbox.py:303-307 | `remove_tag_from_note` succeeds exactly when the tag is in the note's list and the timestamp in its bucket; ValueError exactly when the tag is missing, with nothing changed; KeyError after the list has already lost the tag; on success the list loses the tag's first occurrence and the index the entry |
| TagIndex.MatchesUnique | Jotterbox.py:287-307 | at most one index matches a set of (tag, timestamp) pairs, so exactness determines `tag_dict` |
| TagIndex.AddEntryMatches | Jotterbox.py:298-301 | entering a pair keeps an exact index exact for the pairs plus that pair |
| TagIndex.DropEntryMatches | Jotterbox.py:305-307 | dropping a pair keeps an exact index exact for the pairs less that pair |
| TagIndex.AddTagConsistent | Jotterbox.py:296-301 | `add_tag_to_note` keeps the index consistent with the note's tags and the other notes' pairs |
| TagIndex.RemoveTagConsistent | Jotterbox.py:303-307 | removing a tag the note holds once succeeds and keeps the index consistent |
| TagIndex.ExactIsConsistent | Jotterbox.py:287-307 | an exact index is consistent with any one note's tags and the pairs of the other notes |
| TagIndex.ConsistentIsExact | Jotterbox.py:287-307 | a consistent index is exact for the tag lists with that note's new tags |
| TagIndex.RemoveListedEffect | Jotterbox.py:311-314 | the removal loop over a copy of distinct old tags leaves exactly the old tags that are also new, in order, and keeps the index consistent |
| TagIndex.AddListedTags | Jotterbox.py:315-317 | the addition loop appends the tags of the list not in the old tags, in order, repeats included |
| TagIndex.AddListedConsistent | Jotterbox.py:315-317 | the addition loop keeps the index consistent |
| TagIndex.SetTagsEffect | Jotterbox.py:310-317 | on distinct old tags `set_note_tags` raises nothing; the new list is the kept old tags followed by the added new ones; it holds exactly the tags of `new_tags`; the index stays consistent |
| TagIndex.SetTagsOnFresh | Jotterbox.py:271-272 | on a note without tags `set_note_tags` gives exactly `new_tags` and keeps the index consistent |
| TagIndex.SetTagsFreshTags | Jotterbox.py:272 | on a note without tags `set_note_tags` raises nothing and leaves the note with exactly `new_tags` |
| TagIndex.DeleteWalkEffect | Jotterbox.py:282-283 | from position `i` the loop of `delete_note` removes the tags at `i`, `i+2`, and so on, leaving the others, and keeps the index consistent with what is left |
| TagIndex.DeleteWalkFromStart | Jotterbox.py:282-283 | on distinct tags the loop of `delete_note` leaves exactly the tags at odd positions, in the list and in the index |
| TagIndex.DeleteWalkLeavesSecondTag | Jotterbox.py:282-283 | with two or more tags, the second tag stays both in the note's list and in its bucket |
| TagIndex.DeleteAllEffect | Jotterbox.py:282-283 | removing every tag of a copy of the list leaves no tags and an index of the other notes' pairs only |
| TagIndex.EnterAllMatches | Jotterbox.py:290-294 | entering a note's tags from position `j` adds exactly those pairs to an exact index |
| TagIndex.RebuildFromMatches | Jotterbox.py:289-294 | the rebuilding loop from note `k` adds exactly the pairs of the remaining notes |
| TagIndex.RebuildExact | Jotterbox.py:287-294 | `update_tag_dict` from an empty index over all notes gives exactly the index of the notes' tags, with no empty bucket |
| TagIndex.AddKeepsExact | Jotterbox.py:296-301 | `add_tag_to_note` keeps the index exact |
| TagIndex.RemoveKeepsExact | Jotterbox.py:303-307 | removing a tag the note holds once succeeds and keeps the index exact |
| TagIndex.SetTagsKeepsExact | Jotterbox.py:310-317 | `set_note_tags` on distinct tags succeeds, gives the tag set of `new_tags` and keeps the index exact |
| TagIndex.CreateKeepsExact | Jotterbox.py:265-276 | creating a note under a new timestamp with its tags keeps the index exact |
| TagIndex.BlankKeepsExact | Jotterbox.py:273-276 | creating a blank note under a new timestamp keeps the index exact |
| TagIndex.AddListedKeeps | Jotterbox.py:315-317 | the addition loop of `set_note_tags` never removes an entry from the index |
| TagIndex.CreateOverExistingLeavesIndexStale | Jotterbox.py:265-278 | as written: creating a note at a timestamp already held, without some tag of the old note, raises nothing but leaves an index that is not exact for the notebook with the new note in place |
| TagIndex.DeleteLeavesIndexStale | Jotterbox.py:280-284 | as written, deleting a note with two or more distinct tags leaves an index that is not exact for the remaining notes |
| TagIndex.DeleteFixedKeepsExact | Jotterbox.py:280-284 | removing every tag over a copy of the list succeeds, empties the note's tags and leaves the index exact for the remaining notes |
| FileStore.Compacted | Jotterbox.py:248-254 | compaction leaves only lines and never lengthens the list |
| FileStore.Compact | Jotterbox.py:248-254 | the `while`/`pop` loop computes exactly `Compacted` |
| FileStore.CompactedLength | Jotterbox.py:248-254 | the compacted list has one entry per line slot |
| FileStore.CompactedAt | Jotterbox.py:248-254 | the line at slot `k` lands at the number of lines before `k` |
| FileStore.CompactedFrom | Jotterbox.py:248-254 | every compacted entry was a line of the slots |
| FileStore.CompactionKeepsOrder | Jotterbox.py:248-254 | compaction keeps the relative order of the surviving lines |
| FileStore.StaleAfterGone | Jotterbox.py:248-254 | a line after a blanked slot lands at a smaller index than its slot |
| FileStore.MarkOne | Jotterbox.py:237-246 | a note is given a line number exactly when it is new (not deleted, no line); on success only a new note adds a slot |
| FileStore.NewFileRewrite | Jotterbox.py:224-230 | a new file holds the notes' serialisations in order, and no other file changes; it raises TypeError exactly when some note has no text, at the first such note; note `k` gets line `k` up to that point |
| FileStore.ExistingFileRewrite | Jotterbox.py:231-258 | for a batch whose slots are in range and distinct, the file becomes the compacted slots and nothing raises; deleted notes blank their slot and new notes are appended from the old length; each note's line number is its slot before compaction; each surviving note's line, and each untouched old line, is found in the compacted file at its slot's new position |
| FileStore.StaleLineNumber | Jotterbox.py:237-258 | as written: after blanking line 0 and updating line 2, the file is compacted to two lines but the note keeps line number 2, and saving it again raises IndexError |
| FileStore.RenumberedPointsHome | Jotterbox.py:222-258 | with numbers recomputed after compaction, every surviving note's line number points at its own line in the written file |
| FileStore.RenumberedSecondSave | Jotterbox.py:222-258 | with numbers recomputed, the scenario of `StaleLineNumber` gives the note line 1, and saving it again rewrites that line |
| FileStore.SaveNotesToFile | Jotterbox.py:222-258 | the file system and exception after the call are `Rewrite` applied to the notes as they were; each note's line number becomes the one `Rewrite` gives it |
| FileStore.WriteNewFile | Jotterbox.py:224-230 | the counter loop writes the notes' lines in order and numbers note `k` as `k`, stopping at the first note without text |
| FileStore.MarkLines | Jotterbox.py:237-246 | the marking loop gives the slots and exception of `MarkFrom`, and each note's new line number |
| FileStore.MarkNote | Jotterbox.py:238-246 | one note of the marking loop: the slots and exception of `MarkOne`, and the new line number of a new note |
| Persist.Entered | Jotterbox.py:205-219 | the timestamps after loading are those before and those of the notes created |
| Persist.LoadKeepsExact | Jotterbox.py:205-219 | loading notes under timestamps that are new and distinct keeps the index exact |
| Persist.LoadedAfterCovers | Jotterbox.py:260-263 | after loading a listing, the loaded files are those before plus each listed file once, with the earlier ones kept in front |
| Persist.LoadedAfterIdempotent | Jotterbox.py:260-263 | loading the same listing twice loads nothing the second time |
| Persist.AlreadyLoaded | Jotterbox.py:205-263 | a listing of files all loaded already changes nothing |
| Persist.GroupStep | Jotterbox.py:162-165 | adding a note to `file_dict` appends it to its file's batch, or adds the file as a new last key |
| Persist.FirstFilesCover | Jotterbox.py:158-178 | the keys of `file_dict` are distinct and are exactly the files named |
| Persist.GroupedIsWith | Jotterbox.py:158-178 | each file's batch holds the notes naming that file, in order |
| Persist.DeletedFrom | Jotterbox.py:168-173 | the second loop of `save` takes the deleted notes that have a file, each under its own file |
| Persist.AddAllGroups | Jotterbox.py:158-173 | adding the notes one by one gives the keys in first-appearance order and each file's notes in order |
| Persist.GroupsOfPlan | Jotterbox.py:158-173 | the dictionary of the two loops is that of the live notes followed by the deleted ones |
| Persist.SaveTouchesBatches | Jotterbox.py:176-178 | `save` writes no file outside the batches |
| Notebooks.Notebook.constructor | Jotterbox.py:134-141 | a new notebook has the directory and the title given, the title possibly absent; it is empty: no notes, no deleted notes, an empty index, nothing loaded; the index is exact |
| Notebooks.Notebook.Enter | Jotterbox.py:299-301 | the index becomes `AddEntry` of the old one |
| Notebooks.Notebook.Drop | Jotterbox.py:305-307 | the index becomes `DropEntry` of the old one |
| Notebooks.Notebook.AddTagToNote | Jotterbox.py:296-301 | the note's tags and the index become those of `AddTag`; the notebook's tag lists change at that note only |
| Notebooks.Notebook.RemoveTagFromNote | Jotterbox.py:303-307 | the note's tags, the index and the exception are those of `RemoveTag` |
| Notebooks.Notebook.SetNoteTags | Jotterbox.py:310-317 | the note's tags, the index and the exception are those of `SetTags` |
| Notebooks.Notebook.RemoveUnlisted | Jotterbox.py:312-314 | the first loop of `set_note_tags` gives the tags, index and exception of `RemoveListed` |
| Notebooks.Notebook.AddUnlisted | Jotterbox.py:315-317 | the second loop of `set_note_tags` gives the tags and index of `AddListed` |
| Notebooks.Notebook.SetNoteText | Jotterbox.py:319-320 | the note's text becomes the text given |
| Notebooks.Notebook.CreateNote | Jotterbox.py:265-278 | a new note under the fields' timestamp, or `now`, is entered in the dictionary, replacing any note there and keeping its place; with fields, it carries their file, line, text and tags and the index is that of `SetTags`; without, it is blank and the index unchanged |
| Notebooks.Notebook.NoteFromFields | Jotterbox.py:267-272 | the fields branch: a new note with the fields' timestamp, file, line, text and tags, and the index of `SetTags` |
| Notebooks.Notebook.NewNote | Jotterbox.py:266-274 | the note `create_note` makes, from the fields or blank under `now` |
| Notebooks.Notebook.PopNote | Jotterbox.py:281 | a missing timestamp raises KeyError and changes nothing; otherwise the note leaves the dictionary and its order and goes to the end of the deleted notes |
| Notebooks.Notebook.DeleteNote | Jotterbox.py:280-284 | as written: KeyError with nothing changed when the note is not in the dictionary; otherwise the note moves to the deleted notes, its tags and the index become those of the explicit-index walk, and it is marked deleted when the walk raised nothing |
| Notebooks.Notebook.DeleteTags | Jotterbox.py:282-283 | the loop of `delete_note` leaves the note's tags, the index and the exception of the explicit-index walk `DeleteWalk` from position 0 |
| Notebooks.Notebook.DeleteNoteFixed | Jotterbox.py:280-284 | corrected: the same, but every tag of a copy of the list is removed |
| Notebooks.Notebook.UpdateTagDict | Jotterbox.py:287-294 | the index is rebuilt from empty over the notes in dictionary order, and is exact |
| Notebooks.Notebook.EnterTags | Jotterbox.py:290-294 | the inner loop enters the note under each of its tags |
| Notebooks.Notebook.RebuiltIsExact | Jotterbox.py:287-294 | the rebuilt index is exact |
| Notebooks.Notebook.Query | Jotterbox.py:322-362 | the result is the notes of `QueryResult` over the sorted timestamps, in that order; they strictly ascend; each is wanted (date within the bounds given, a tag in the filter given); every wanted note appears when `range_start` is absent or some note falls on it; nothing changes |
| Notebooks.Notebook.Scan | Jotterbox.py:348-360 | the scan loop returns the notes of `Selected` from the start index, in order |
| Notebooks.Notebook.EnterFields | Jotterbox.py:215 | one line of `load_notes_from_file`: a new note carrying the parsed fields is entered |
| Notebooks.Notebook.ReadLines | Jotterbox.py:207-217 | line `k` parses to fields with file `file` and line `k`; the loop stops exactly at the first line that does not parse, with that line's exception; one new note per parsed line carries its fields |
| Notebooks.Notebook.LoadNotesFromFile | Jotterbox.py:205-219 | a loaded file is skipped and a missing one raises FileNotFoundError, both changing nothing; otherwise the lines are entered as by `ReadLines`, and the file is appended once to the loaded files when every line parsed |
| Notebooks.Notebook.LoadedExact | Jotterbox.py:205-219 | loading notes under new and distinct timestamps keeps the index exact |
| Notebooks.Notebook.Load | Jotterbox.py:146-155 | without a title, TypeError and nothing changes; otherwise today's partition file is loaded when it exists, and nothing changes when it does not |
| Notebooks.Notebook.LoadAllFiles | Jotterbox.py:260-263 | the loaded files become those of `LoadedAfter` over the listing, or over a prefix of it when a file raises; a listing of loaded files changes nothing |
| Notebooks.Notebook.LivePlan | Jotterbox.py:159-165 | the first loop of `save` hands each live note, in dictionary order, to its own file or its day's file |
| Notebooks.Notebook.PlanShaped | Jotterbox.py:157-178 | the notes handed to the rewrites are distinct, each view names its entry's file, and each is a live or a deleted note |
| Notebooks.Notebook.Save | Jotterbox.py:157-178 | without a title and with a live note lacking a file, TypeError and nothing changes; otherwise the files and exception after `save` are those of rewriting each batch in key order until one raises; each live note without a file gets its day's file; the deleted notes are cleared even when a rewrite raises; in every case the dictionary, its order, the index and the loaded files are unchanged |
| Notebooks.Notebook.SaveTitled | Jotterbox.py:157-178 | `save` when every live note's file can be named: the files and exception are those of rewriting each batch in key order until one raises; the deleted notes are cleared; each live note gets its own or its day's file |
| Notebooks.Notebook.Group | Jotterbox.py:158-174 | the two grouping loops build the keys and batches of the plan, give files to the live notes and clear the deleted notes |
| Notebooks.Notebook.GroupLive | Jotterbox.py:159-165 | the first grouping loop adds the live notes, and each note's view is what the rewrite reads |
| Notebooks.Notebook.FileLive | Jotterbox.py:159-165 | the first grouping loop gives each live note without a file its day's file and adds it to that file's batch |
| Notebooks.Notebook.GroupDeleted | Jotterbox.py:168-173 | the second grouping loop adds the deleted notes that have a file |
| Notebooks.Notebook.SaveBatches | Jotterbox.py:176-178 | the last loop of `save` rewrites each batch in key order until one raises |
| Notebooks.Join | Jotterbox.py:162-165 | one note is appended to its file's batch, or starts a new batch with its file as the last key |
| Notebooks.SaveBatch | Jotterbox.py:178 | one batch is rewritten, and the views of the other files' notes are what they were |
| Notebooks.QueryFacts | Jotterbox.py:322-362 | the notes picked from ascending timestamps strictly ascend, are each wanted, and include every wanted note when `range_start` is absent or matched |
| Query.AscendingDatesSorted | Jotterbox.py:324 | the dates of sorted timestamps never decrease |
| Query.SearchStops | Jotterbox.py:332-339 | the search stops on a date equal to `range_start`, or with `l` just past `r` and the last probe next to `l` |
| Query.SearchKeeps | Jotterbox.py:332-339 | on sorted dates every date before `l` is below `range_start` and every date after `r` above it |
| Query.SearchEnds | Jotterbox.py:332-339 | on sorted dates the search ends on a matching date or with `l` at the lower bound |
| Query.WalkBackFirst | Jotterbox.py:342-343 | the backward walk ends on the first index of the probed date |
| Query.StartIndexSound | Jotterbox.py:341-346 | the start index is the end of the list or the lower bound, and no later date is below `range_start` |
| Query.StartIndexExact | Jotterbox.py:341-346 | when some date equals `range_start`, the start is the first index whose date is not below it |
| Query.StartIndexMissesLaterDates | Jotterbox.py:341-346 | as written: for dates 1, 5, 6 and `range_start` 3 the start is 3, the end of the list, where the lower bound is 1 |
| Query.StartIndexFixedIsLowerBound | Jotterbox.py:341-346 | corrected: starting at `l` when the last probe is below `range_start` always gives the lower bound |
| Query.SearchStart | Jotterbox.py:328-346 | the search and walk-back loops compute `StartIndex` |
| Query.HasFilteredTag | Jotterbox.py:355-358 | the inner loop finds a tag exactly when one of the note's tags is in the filter |
| Query.SelectedAccAppends | Jotterbox.py:348-360 | the loop's result built so far, followed by the rest of the scan, is the whole scan |
| Query.SelectedSound | Jotterbox.py:348-360 | the scan keeps only timestamps from the start on, within `range_end`, passing the filter |
| Query.SelectedAscending | Jotterbox.py:348-360 | the scan of ascending timestamps ascends |
| Query.SelectedComplete | Jotterbox.py:348-360 | on sorted dates the scan keeps every later timestamp within `range_end` that passes the filter |
| Query.QuerySound | Jotterbox.py:322-362 | everything `query` returns is a note's timestamp and wanted, and the result ascends |
| Query.QueryComplete | Jotterbox.py:322-362 | when `range_start` is absent or some date equals it, every wanted timestamp is returned |
| Query.QueryMissesLaterNotes | Jotterbox.py:322-362 | as written: dates 1, 5, 6 with `range_start` 3 give an empty result although the notes of days 5 and 6 are wanted |
| Query.QueryFixedExact | Jotterbox.py:322-362 | corrected: with the fixed start, `query` returns exactly the wanted timestamps, in ascending order |

## Left out

- The user interface, settings, `close`, `export` and all Tkinter code: they are presentation, not the engine.
- Real file I/O. The file system is a map from file to its list of lines. Line ends are not modelled: a file is read as its lines and written back as the same lines. The model does not capture what happens when a note's text holds a newline and splits into two lines on reload.
- `datetime.now()` and the directory `glob`: the clock reading (`now`, `today`) and the listing are parameters.
- The exact text of `isoformat`/`fromisoformat` and `strftime`. A timestamp is an ordinal day and a time of day, and its text form is the two decimal numbers around `T`. The day in a file name is the decimal day number. Both are injective, which is all the engine relies on.
- I/O failures of the file system (disk errors, permissions): only the exceptions the engine's own code raises are modelled.
- Concurrency and atomic writes: the engine is single-threaded, and a crash during a write is outside the model.
- Notebooks.Notebook.LoadAllFiles: states the loaded-files list and that no note is lost, but not the notes each file adds; those are stated per file by `LoadNotesFromFile`.
- Notebooks.Notebook.Save: states the file system and exception through `SaveFrom`, but not each note's new line number; those are stated per batch by `FileStore.SaveNotesToFile`.
- Notebooks.Notebook.Save: each live note's file after `save` is stated through the dictionary's order (`notes[order[k]]`) rather than over `notes.Values`.
- The ghost out-parameters `fields` and `made` of the load methods name the parsed lines and the notes created. The source returns nothing.
- A deleted note that was never written (no file) is not handed to the rewrite, exactly as in the source. A deleted note with a file but no line number makes the rewrite raise TypeError (`FileStore.MarkOne`). `save` can leave such a note behind. Its first loop gives every live note a file before any rewrite runs. If one batch's rewrite then raises (IndexError from a stale line number, or TypeError from a note without text), the live notes of later batches keep their new file but still have no line number. Deleting one of them and saving again raises the TypeError when its file exists.

## Findings

| source | as written | input that shows it | evidently intended | confidence | as-written member | corrected member |
|---|---|---|---|---|---|---|
| Jotterbox.py:282-283 | `delete_note` removes tags while iterating the same list, so only the tags at positions 0, 2, 4, … are removed | a note with the distinct tags `a`, `b`: `b` stays in the note's tags and in the bucket of `b` | every tag of the note is removed from the note and from the index | not executed | TagIndex.DeleteLeavesIndexStale | TagIndex.DeleteFixedKeepsExact |
| Jotterbox.py:341-346 | when the search ends with its last probe below `range_start`, the start becomes the length of the list | notes dated 1, 5 and 6, `range_start` 3: the result is empty although the notes of days 5 and 6 qualify | start at `l`, the first index whose date is not below `range_start` | not executed | Query.QueryMissesLaterNotes | Query.QueryFixedExact |
| Jotterbox.py:237-258 | line numbers are not recomputed after compaction | a file `a`, `b`, `c` with the note of line 0 deleted and the note of line 2 updated in one save: the note keeps line 2 of a two-line file, and saving it again raises IndexError | each surviving note's line number is its position in the compacted file | not executed | FileStore.StaleLineNumber | FileStore.RenumberedPointsHome |
