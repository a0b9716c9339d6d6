/** `App.Notebook`: the notes of one notebook keyed by timestamp, the tag
    index over them, the notes deleted since the last save and the partition
    files already read. */
module Notebooks {
  import opened Common
  import opened Time
  import opened Notes
  import opened TagIndex
  import opened FileStore
  import opened Query
  import opened Persist

  /** The dictionary's shape on values: `order` lists each key once, each
      note sits under its own timestamp, and the deleted notes are distinct
      and no longer in the dictionary. */
  ghost predicate Shaped(notes: map<Timestamp, Note>, order: seq<Timestamp>, deleted: seq<Note>) {
    && (forall t :: t in order <==> t in notes)
    && Distinct(order)
    && (forall t :: t in notes ==> notes[t].timestamp == t)
    && Distinct(deleted)
    && (forall j :: 0 <= j < |deleted| ==> deleted[j] !in notes.Values)
  }

  /** Entering a note that is not among the deleted ones keeps the shape;
      a new timestamp goes to the end of the order. */
  lemma EnterShaped(notes: map<Timestamp, Note>, order: seq<Timestamp>, deleted: seq<Note>, n: Note)
    requires Shaped(notes, order, deleted) && n !in deleted
    ensures Shaped(notes[n.timestamp := n], if n.timestamp in notes then order else order + [n.timestamp], deleted)
  {
  }

  /** Popping a note and appending it to the deleted ones keeps the shape. */
  lemma PopShaped(notes: map<Timestamp, Note>, order: seq<Timestamp>, deleted: seq<Note>, ts: Timestamp)
    requires Shaped(notes, order, deleted) && ts in notes
    ensures Shaped(notes - {ts}, Without(order, ts), deleted + [notes[ts]])
  {
    var n := notes[ts];
    forall j | 0 <= j < |deleted| + 1 ensures (deleted + [n])[j] !in (notes - {ts}).Values {
      if j == |deleted| {
        assert forall t :: t in notes - {ts} ==> notes[t].timestamp != n.timestamp;
      } else {
        assert (deleted + [n])[j] == deleted[j];
      }
    }
  }

  class Notebook {
    const dir: string
    /** The notebook's title, which names its partition files; `None` when
        the notebook was opened without one. */
    const title: Option<string>
    /** `notes`, a dictionary; `order` is its insertion order. */
    var notes: map<Timestamp, Note>
    var order: seq<Timestamp>
    var notesDeleted: seq<Note>
    var tagDict: Index
    var loadedFiles: seq<FileId>
    var fullyLoaded: bool

    /** The notebook's dictionary has its shape. */
    ghost predicate Valid()
      reads this`notes, this`order, this`notesDeleted
    {
      Shaped(notes, order, notesDeleted)
    }

    /** Each note's current tag list, by timestamp. */
    ghost function TagsOf(): map<Timestamp, seq<string>>
      reads this`notes, notes.Values`tags
    {
      map t | t in notes :: notes[t].tags
    }

    /** The tag index is exactly the index of the notes' tags. */
    ghost predicate IndexExact()
      reads this`notes, this`tagDict, notes.Values`tags
    {
      Matches(tagDict, PairsOf(TagsOf()), notes)
    }

    /** `Notebook(dir, title)`: empty, nothing loaded. */
    constructor (dir: string, title: Option<string>)
      ensures this.dir == dir && this.title == title
      ensures notes == map[] && order == [] && notesDeleted == [] && tagDict == map[]
      ensures loadedFiles == [] && !fullyLoaded
      ensures Valid() && IndexExact()
    {
      this.dir := dir;
      this.title := title;
      notes := map[];
      order := [];
      notesDeleted := [];
      tagDict := map[];
      loadedFiles := [];
      fullyLoaded := false;
      new;
      MatchesEmpty(map[]);
      assert PairsOf(TagsOf()) == {};
    }

    /** `save` can name the file of every live note: the notebook has a
        title, or every live note already has a file. */
    ghost predicate Titled()
      reads this`notes, this`order, notes.Values`file
    {
      title.Some? || forall k :: 0 <= k < |order| && order[k] in notes ==> notes[order[k]].file.Some?
    }

    /** `note` is the notebook's note for its timestamp. */
    ghost predicate Holds(note: Note)
      reads this`notes
    {
      note.timestamp in notes && notes[note.timestamp] == note
    }

    /** When only `note`'s tags changed, the tag map changes at its timestamp only. */
    twostate lemma EditedTags(note: Note)
      requires old(Valid()) && notes == old(notes) && Holds(note)
      requires forall t :: t in notes ==> notes[t] == note || notes[t].tags == old(notes[t].tags)
      ensures TagsOf() == old(TagsOf())[note.timestamp := note.tags]
    {
      var tm, tm0 := TagsOf(), old(TagsOf())[note.timestamp := note.tags];
      assert tm.Keys == tm0.Keys;
      forall t | t in tm
        ensures tm[t] == tm0[t]
      {
        if t != note.timestamp {
          assert notes[t] == old(notes[t]);
        }
      }
    }

    /** Nothing that changes no note leaves the tags as they were. */
    twostate lemma TagsKept()
      requires notes == old(notes)
      requires forall t :: t in notes ==> notes[t].tags == old(notes[t].tags)
      ensures TagsOf() == old(TagsOf())
    {
    }

    /** Enters `note` under `ts` in the bucket of `tag`, creating the bucket
        for a new tag. */
    method Enter(tag: string, ts: Timestamp, note: Note)
      modifies this`tagDict
      ensures tagDict == AddEntry(old(tagDict), tag, ts, note)
    {
      if tag !in tagDict {
        tagDict := tagDict[tag := map[ts := note]];
      } else {
        tagDict := tagDict[tag := tagDict[tag][ts := note]];
      }
    }

    /** Removes the note under `ts` from the bucket of `tag`, and the bucket
        itself when that leaves it empty. */
    method Drop(tag: string, ts: Timestamp)
      requires tag in tagDict && ts in tagDict[tag]
      modifies this`tagDict
      ensures tagDict == DropEntry(old(tagDict), tag, ts)
    {
      var bucket := tagDict[tag] - {ts};
      tagDict := tagDict[tag := bucket];
      if |bucket| == 0 {
        tagDict := tagDict - {tag};
      }
    }

    /** `add_tag_to_note(note, tag)`: the tag is appended and the note
        entered in its bucket, as `AddTag` says; of the notebook's tag lists
        only this note's changes. */
    method AddTagToNote(note: Note, tag: string)
      requires Valid()
      modifies this`tagDict, note`tags
      ensures TagState(note.tags, tagDict) == AddTag(old(TagState(note.tags, tagDict)), tag, note.timestamp, note)
      ensures Holds(note) ==> TagsOf() == old(TagsOf())[note.timestamp := note.tags]
    {
      note.tags := note.tags + [tag];
      Enter(tag, note.timestamp, note);
      if Holds(note) {
        EditedTags(note);
      }
    }

    /** `remove_tag_from_note(note, tag)`: as `RemoveTag` says, including the
        ValueError of an absent tag and the KeyError of a missing entry, raised
        after the tag list has changed; of the notebook's tag lists only this
        note's changes. */
    method RemoveTagFromNote(note: Note, tag: string) returns (err: Option<PyError>)
      requires Valid()
      modifies this`tagDict, note`tags
      ensures var r := RemoveTag(old(TagState(note.tags, tagDict)), tag, note.timestamp);
        TagState(note.tags, tagDict) == r.state && err == r.err
      ensures Holds(note) ==> TagsOf() == old(TagsOf())[note.timestamp := note.tags]
    {
      var ts := note.timestamp;
      if tag !in note.tags {
        return Some(ValueError);
      }
      note.tags := RemoveFirst(note.tags, tag);
      if tag !in tagDict || ts !in tagDict[tag] {
        if Holds(note) {
          EditedTags(note);
        }
        return Some(KeyError);
      }
      Drop(tag, ts);
      err := None;
      if Holds(note) {
        EditedTags(note);
      }
    }

    /** `set_note_tags(note, new_tags)`: the removal loop over a copy of the
        old tags, then the adding loop, as `SetTags` says, stopping at the
        first exception; of the notebook's tag lists only this note's changes. */
    method SetNoteTags(note: Note, newTags: seq<string>) returns (err: Option<PyError>)
      requires Valid()
      modifies this`tagDict, note`tags
      ensures var r := SetTags(old(TagState(note.tags, tagDict)), newTags, note.timestamp, note);
        TagState(note.tags, tagDict) == r.state && err == r.err
      ensures Holds(note) ==> TagsOf() == old(TagsOf())[note.timestamp := note.tags]
    {
      var oldTags := note.tags;
      err := RemoveUnlisted(note, oldTags, newTags);
      if err.Some? {
        return;
      }
      AddUnlisted(note, newTags, oldTags);
    }

    /** Removes from the note, one by one, each tag of `list` that `keep`
        does not hold, stopping at the first error. */
    method RemoveUnlisted(note: Note, list: seq<string>, keep: seq<string>) returns (err: Option<PyError>)
      requires Valid()
      modifies this`tagDict, note`tags
      ensures var r := RemoveListed(old(TagState(note.tags, tagDict)), list, keep, note.timestamp, 0);
        TagState(note.tags, tagDict) == r.state && err == r.err
      ensures Holds(note) ==> TagsOf() == old(TagsOf())[note.timestamp := note.tags]
    {
      var ts := note.timestamp;
      ghost var st0 := TagState(note.tags, tagDict);
      var i := 0;
      while i < |list|
        invariant i <= |list|
        invariant RemoveListed(TagState(note.tags, tagDict), list, keep, ts, i) == RemoveListed(st0, list, keep, ts, 0)
        invariant Valid()
      {
        if list[i] !in keep {
          err := RemoveTagFromNote(note, list[i]);
          if err.Some? {
            if Holds(note) {
              EditedTags(note);
            }
            return;
          }
        }
        i := i + 1;
      }
      err := None;
      if Holds(note) {
        EditedTags(note);
      }
    }

    /** Adds to the note, one by one, each tag of `list` that `skip` does not
        hold. */
    method AddUnlisted(note: Note, list: seq<string>, skip: seq<string>)
      requires Valid()
      modifies this`tagDict, note`tags
      ensures TagState(note.tags, tagDict) == AddListed(old(TagState(note.tags, tagDict)), list, skip, note.timestamp, note, 0)
      ensures Holds(note) ==> TagsOf() == old(TagsOf())[note.timestamp := note.tags]
    {
      var ts := note.timestamp;
      ghost var st0 := TagState(note.tags, tagDict);
      var j := 0;
      while j < |list|
        invariant j <= |list|
        invariant AddListed(TagState(note.tags, tagDict), list, skip, ts, note, j) == AddListed(st0, list, skip, ts, note, 0)
        invariant Valid()
      {
        if list[j] !in skip {
          AddTagToNote(note, list[j]);
        }
        j := j + 1;
      }
      if Holds(note) {
        EditedTags(note);
      }
    }

    /** `set_note_text(note, text)`. */
    method SetNoteText(note: Note, text: string)
      modifies note`text
      ensures note.text == Some(text)
    {
      note.text := Some(text);
    }

    /** A note entered under its timestamp, no other note's tags touched:
        the tags by timestamp gain that note's. */
    twostate lemma EnteredTags(new note: Note)
      requires fresh(note) && notes == old(notes)[note.timestamp := note]
      requires forall t :: t in notes ==> notes[t] == note || (t in old(notes) && notes[t].tags == old(notes[t].tags))
      ensures TagsOf() == old(TagsOf())[note.timestamp := note.tags]
    {
      var tm, tm0 := TagsOf(), old(TagsOf())[note.timestamp := note.tags];
      assert tm.Keys == tm0.Keys;
      forall t | t in tm
        ensures tm[t] == tm0[t]
      {
        if t != note.timestamp {
          assert notes[t] == old(notes[t]);
        }
      }
    }

    /** `create_note(fields)`: a new note under the fields' timestamp, or
        under the clock reading `now` when there are no fields, with the
        fields' file, line, text and tags set through `set_note_text` and
        `set_note_tags`. A note already under that timestamp is replaced in
        place, keeping its position in the dictionary order. */
    method CreateNote(fields: Option<Fields>, now: Timestamp) returns (note: Note)
      requires Valid()
      modifies this`notes, this`order, this`tagDict
      ensures fresh(note) && Valid() && !note.deleted
      ensures note.timestamp == (if fields.Some? then fields.value.timestamp else now)
      ensures notes == old(notes)[note.timestamp := note]
      ensures order == if note.timestamp in old(notes) then old(order) else old(order) + [note.timestamp]
      ensures fields.Some? ==>
        && note.file == Some(fields.value.file) && note.fileLine == Some(fields.value.fileLine)
        && note.text == Some(fields.value.text) && note.tags == fields.value.tags
        && tagDict == SetTags(TagState([], old(tagDict)), fields.value.tags, note.timestamp, note).state.index
      ensures fields.None? ==>
        note.file == None && note.fileLine == None && note.text == None && note.tags == [] && tagDict == old(tagDict)
      ensures TagsOf() == old(TagsOf())[note.timestamp := note.tags]
    {
      note := NewNote(fields, now);
      var ts := note.timestamp;
      EnterShaped(notes, order, notesDeleted, note);
      order := if ts in notes then order else order + [ts];
      notes := notes[ts := note];
      EnteredTags(note);
    }

    /** The note `create_note` enters: built from the fields, or an empty
        note stamped `now`. */
    method NewNote(fields: Option<Fields>, now: Timestamp) returns (note: Note)
      requires Valid()
      modifies this`tagDict
      ensures fresh(note) && !note.deleted
      ensures note.timestamp == (if fields.Some? then fields.value.timestamp else now)
      ensures fields.Some? ==>
        && note.file == Some(fields.value.file) && note.fileLine == Some(fields.value.fileLine)
        && note.text == Some(fields.value.text) && note.tags == fields.value.tags
        && tagDict == SetTags(TagState([], old(tagDict)), fields.value.tags, note.timestamp, note).state.index
      ensures fields.None? ==>
        note.file == None && note.fileLine == None && note.text == None && note.tags == [] && tagDict == old(tagDict)
    {
      if fields.Some? {
        note := NoteFromFields(fields.value);
      } else {
        note := new Note(now);
      }
    }

    /** The fields branch of `create_note`: a new note with the fields'
        timestamp, file and line, its text and tags set through
        `set_note_text` and `set_note_tags`, which cannot fail on a note
        without tags. */
    method NoteFromFields(f: Fields) returns (note: Note)
      requires Valid()
      modifies this`tagDict
      ensures fresh(note) && !note.deleted && note.timestamp == f.timestamp
      ensures note.file == Some(f.file) && note.fileLine == Some(f.fileLine)
      ensures note.text == Some(f.text) && note.tags == f.tags
      ensures tagDict == SetTags(TagState([], old(tagDict)), f.tags, f.timestamp, note).state.index
    {
      note := new Note(f.timestamp);
      note.file := Some(f.file);
      note.fileLine := Some(f.fileLine);
      SetNoteText(note, f.text);
      var err := SetNoteTags(note, f.tags);
      SetTagsFreshTags(old(tagDict), f.tags, note.timestamp, note);
    }

    /** Notes left out of the dictionary, no remaining note's tags touched:
        the tags by timestamp lose theirs. */
    twostate lemma RemovedTags(ts: Timestamp)
      requires notes == old(notes) - {ts}
      requires forall t :: t in notes ==> notes[t].tags == old(notes[t].tags)
      ensures TagsOf() == old(TagsOf()) - {ts}
    {
    }

    /** Takes the note under `ts` out of the dictionary and appends it to the
        deleted notes: KeyError, and nothing changed, when no note is under
        `ts`. */
    method PopNote(ts: Timestamp) returns (err: Option<PyError>)
      requires Valid()
      modifies this`notes, this`order, this`notesDeleted
      ensures Valid()
      ensures ts !in old(notes) ==>
        err == Some(KeyError) && notes == old(notes) && order == old(order) && notesDeleted == old(notesDeleted)
      ensures ts in old(notes) ==>
        && err.None? && notes == old(notes) - {ts} && order == Without(old(order), ts)
        && notesDeleted == old(notesDeleted) + [old(notes)[ts]]
    {
      if ts !in notes {
        return Some(KeyError);
      }
      PopShaped(notes, order, notesDeleted, ts);
      notesDeleted := notesDeleted + [notes[ts]];
      notes := notes - {ts};
      order := Without(order, ts);
      err := None;
    }

    /** `delete_note(note)` as written: pop the note into the deleted ones,
        then remove its tags with a loop that reads position `i` of the very
        list the removals shrink (`DeleteWalk`), and mark the note deleted
        when no removal raised. */
    method DeleteNote(note: Note) returns (err: Option<PyError>)
      requires Valid()
      modifies this`notes, this`order, this`notesDeleted, this`tagDict, note`tags, note`deleted
      ensures Valid()
      ensures note.timestamp !in old(notes) ==>
        && err == Some(KeyError) && notes == old(notes) && order == old(order)
        && notesDeleted == old(notesDeleted) && tagDict == old(tagDict)
        && note.tags == old(note.tags) && note.deleted == old(note.deleted)
      ensures note.timestamp in old(notes) ==>
        && notes == old(notes) - {note.timestamp} && order == Without(old(order), note.timestamp)
        && notesDeleted == old(notesDeleted) + [old(notes)[note.timestamp]]
        && TagsOf() == old(TagsOf()) - {note.timestamp}
        && (var r := DeleteWalk(old(TagState(note.tags, tagDict)), note.timestamp, 0);
            TagState(note.tags, tagDict) == r.state && err == r.err)
        && note.deleted == (err.None? || old(note.deleted))
    {
      var ts := note.timestamp;
      err := PopNote(ts);
      if err.Some? {
        return;
      }
      err := DeleteTags(note);
      if err.None? {
        note.deleted := true;
      }
      RemovedTags(ts);
    }

    /** The loop of `delete_note`: `for tag in note.tags`, removing each tag
        it reads from the list it iterates, until a removal raises. */
    method DeleteTags(note: Note) returns (err: Option<PyError>)
      requires Valid()
      modifies this`tagDict, note`tags
      ensures var r := DeleteWalk(old(TagState(note.tags, tagDict)), note.timestamp, 0);
        TagState(note.tags, tagDict) == r.state && err == r.err
    {
      ghost var st0 := TagState(note.tags, tagDict);
      var ts := note.timestamp;
      err := None;
      var i := 0;
      while i < |note.tags|
        invariant DeleteWalk(TagState(note.tags, tagDict), ts, i) == DeleteWalk(st0, ts, 0) && err.None?
        decreases |note.tags| - i
      {
        ghost var st := TagState(note.tags, tagDict);
        err := RemoveTagFromNote(note, note.tags[i]);
        ghost var r := RemoveTag(st, st.tags[i], ts);
        assert Step(TagState(note.tags, tagDict), err) == r;
        assert DeleteWalk(st, ts, i) == if r.err.Some? then r else DeleteWalk(r.state, ts, i + 1);
        if err.Some? {
          return;
        }
        i := i + 1;
      }
      assert DeleteWalk(TagState(note.tags, tagDict), ts, i) == Step(TagState(note.tags, tagDict), None);
    }

    /** `delete_note` as evidently intended: the same, with the tags
        removed from a copy of the list, so every tag goes. */
    method DeleteNoteFixed(note: Note) returns (err: Option<PyError>)
      requires Valid()
      modifies this`notes, this`order, this`notesDeleted, this`tagDict, note`tags, note`deleted
      ensures Valid()
      ensures note.timestamp !in old(notes) ==>
        && err == Some(KeyError) && notes == old(notes) && order == old(order)
        && notesDeleted == old(notesDeleted) && tagDict == old(tagDict)
        && note.tags == old(note.tags) && note.deleted == old(note.deleted)
      ensures note.timestamp in old(notes) ==>
        && notes == old(notes) - {note.timestamp} && order == Without(old(order), note.timestamp)
        && notesDeleted == old(notesDeleted) + [old(notes)[note.timestamp]]
        && TagsOf() == old(TagsOf()) - {note.timestamp}
        && (var r := RemoveListed(old(TagState(note.tags, tagDict)), old(note.tags), [], note.timestamp, 0);
            TagState(note.tags, tagDict) == r.state && err == r.err)
        && note.deleted == (err.None? || old(note.deleted))
    {
      var ts := note.timestamp;
      err := PopNote(ts);
      if err.Some? {
        return;
      }
      err := RemoveUnlisted(note, note.tags, []);
      if err.None? {
        note.deleted := true;
      }
      RemovedTags(ts);
    }

    /** `update_tag_dict()`: clear the index and enter every tag of every
        note, visiting the notes in dictionary order; the result is exactly
        the index of the notes' tags. */
    method UpdateTagDict()
      requires Valid()
      modifies this`tagDict
      ensures tagDict == RebuildFrom(map[], order, TagsOf(), notes, 0)
      ensures IndexExact()
    {
      ghost var tm := TagsOf();
      assert forall t :: t in order ==> t in tm && t in notes;
      tagDict := map[];
      var k := 0;
      while k < |order|
        invariant k <= |order| && Valid() && tm == TagsOf()
        invariant RebuildFrom(tagDict, order, tm, notes, k) == RebuildFrom(map[], order, tm, notes, 0)
      {
        EnterTags(notes[order[k]]);
        k := k + 1;
      }
      RebuiltIsExact();
    }

    /** The inner loop of `update_tag_dict`: enter each tag of one note. */
    method EnterTags(note: Note)
      modifies this`tagDict
      ensures tagDict == EnterAll(old(tagDict), note.tags, note.timestamp, note, 0)
    {
      var j := 0;
      while j < |note.tags|
        invariant j <= |note.tags|
        invariant EnterAll(tagDict, note.tags, note.timestamp, note, j) == EnterAll(old(tagDict), note.tags, note.timestamp, note, 0)
      {
        Enter(note.tags[j], note.timestamp, note);
        j := j + 1;
      }
    }

    /** The rebuilt index is exact. */
    lemma RebuiltIsExact()
      requires Valid()
      requires forall t :: t in order ==> t in TagsOf() && t in notes
      requires tagDict == RebuildFrom(map[], order, TagsOf(), notes, 0)
      ensures IndexExact()
    {
      RebuildExact(order, TagsOf(), notes);
    }

    /** `query(range_start, range_end, filter_tags)`: the notes `QueryResult`
        picks from the sorted timestamps, in that order. They ascend, each is
        wanted, and every wanted note is among them when there is no
        `range_start` or some note's date equals it. */
    method Query(rs: Option<Date>, re: Option<Date>, filterTags: Option<seq<string>>) returns (result: seq<Note>)
      requires Valid()
      ensures var q := Picked(rs, re, filterTags);
        |result| == |q| && forall k :: 0 <= k < |q| ==> q[k] in notes && result[k] == notes[q[k]]
      ensures forall i, j :: 0 <= i < j < |result| ==> Before(result[i].timestamp, result[j].timestamp)
      ensures forall k :: 0 <= k < |result| ==>
        result[k].timestamp in notes && Wanted(result[k].timestamp, TagsOf(), rs, re, filterTags)
      ensures (rs.None? || exists t :: t in notes && t.date == rs.value) ==>
        forall t :: t in notes && Wanted(t, TagsOf(), rs, re, filterTags) ==>
          exists k :: 0 <= k < |result| && result[k] == notes[t]
    {
      var timestamps := Sort(order);
      ghost var tm := TagsOf();
      TagsAt(timestamps);
      var start := 0;
      if rs.Some? && |timestamps| > 0 {
        start := SearchStart(timestamps, rs.value);
        TagsKept();
      }
      ghost var picked;
      result, picked := Scan(timestamps, tm, start, re, filterTags);
      TagsKept();
      QueryFacts(timestamps, tm, notes, rs, re, filterTags, picked, result);
    }

    /** The timestamps `QueryResult` picks from the notes' sorted timestamps. */
    ghost function Picked(rs: Option<Date>, re: Option<Date>, filterTags: Option<seq<string>>): seq<Timestamp>
      requires Valid()
      reads this`notes, this`order, this`notesDeleted, notes.Values`tags
    {
      var ts := Sort(order);
      TagsAt(ts);
      QueryResult(ts, TagsOf(), rs, re, filterTags)
    }

    /** Each listed timestamp of a note is a key of `TagsOf()`, under that note's tags. */
    lemma TagsAt(ts: seq<Timestamp>)
      requires forall k :: 0 <= k < |ts| ==> ts[k] in notes
      ensures forall k :: 0 <= k < |ts| ==> ts[k] in TagsOf() && TagsOf()[ts[k]] == notes[ts[k]].tags
    {
    }

    /** The scan of `query` from `start`: stop at the first date after
        `range_end`, keep the notes the tag filter accepts. */
    method Scan(timestamps: seq<Timestamp>, ghost tm: map<Timestamp, seq<string>>, start: nat, re: Option<Date>, filterTags: Option<seq<string>>)
      returns (result: seq<Note>, ghost picked: seq<Timestamp>)
      requires start <= |timestamps| && forall k :: 0 <= k < |timestamps| ==> timestamps[k] in notes
      requires forall k :: 0 <= k < |timestamps| ==> timestamps[k] in tm && tm[timestamps[k]] == notes[timestamps[k]].tags
      ensures picked == Selected(timestamps, tm, start, re, filterTags)
      ensures |result| == |picked| && forall k :: 0 <= k < |picked| ==> picked[k] in notes && result[k] == notes[picked[k]]
    {
      SelectedAccAppends(timestamps, tm, start, re, filterTags, []);
      assert [] + Selected(timestamps, tm, start, re, filterTags) == Selected(timestamps, tm, start, re, filterTags);
      result := [];
      picked := [];
      var i := start;
      while i < |timestamps|
        invariant start <= i <= |timestamps|
        invariant SelectedAcc(timestamps, tm, i, re, filterTags, picked) == SelectedAcc(timestamps, tm, start, re, filterTags, [])
        invariant |result| == |picked|
        invariant forall k :: 0 <= k < |picked| ==> picked[k] in notes && result[k] == notes[picked[k]]
      {
        if re.Some? && timestamps[i].date > re.value {
          break;
        }
        var note := notes[timestamps[i]];
        var keep := true;
        if filterTags.Some? {
          keep := HasFilteredTag(note.tags, filterTags.value);
        }
        if keep {
          result := result + [note];
          picked := picked + [timestamps[i]];
        }
        i := i + 1;
      }
    }

    // -------------------------------------------------------------------
    // Loading

    /** The notebook after the notes `made` were created from `fields`. */
    ghost predicate LoadedSoFar(ns: map<Timestamp, Note>, order0: seq<Timestamp>, ix: Index,
                                tm: map<Timestamp, seq<string>>, fields: seq<Fields>, made: seq<Note>)
      reads this`notes, this`order, this`tagDict, notes.Values`tags
    {
      && |made| == |fields|
      && notes == Entered(ns, made) && order == Grown(order0, ns, made)
      && tagDict == LoadIndex(ix, fields, made)
      && TagsOf() == LoadTags(tm, fields)
    }

    /** One step of `load_notes_from_file`: `create_note(fields=f)`. */
    method EnterFields(f: Fields, ghost ns: map<Timestamp, Note>, ghost order0: seq<Timestamp>, ghost ix: Index,
                       ghost tm: map<Timestamp, seq<string>>, ghost fields: seq<Fields>, ghost made: seq<Note>)
      returns (note: Note)
      requires Valid() && LoadedSoFar(ns, order0, ix, tm, fields, made)
      requires forall k :: 0 <= k < |made| ==> Carries(made[k], fields[k])
      modifies this`notes, this`order, this`tagDict
      ensures fresh(note) && Valid() && LoadedSoFar(ns, order0, ix, tm, fields + [f], made + [note])
      ensures forall k :: 0 <= k < |made| ==> Carries(made[k], fields[k])
      ensures Carries(note, f)
    {
      note := CreateNote(Some(f), f.timestamp);
      LoadStep(ns, order0, ix, tm, fields, made, f, note);
    }

    /** What `load_notes_from_file(file)` did: nothing for a file already
        loaded, FileNotFoundError for a missing one, and otherwise each line
        `k` up to the first that does not parse gave fields numbered `k` in
        `file`, from which a new note was created and entered; the file is
        recorded as loaded when every line parsed. */
    twostate predicate LoadedFile(file: FileId, fs: Files, new err: Option<PyError>, fields: seq<Fields>, new made: seq<Note>)
      reads this, notes.Values, made
    {
      if file in old(loadedFiles) || file !in fs then
        && err == (if file in old(loadedFiles) then None else Some(FileNotFoundError))
        && fields == [] && made == []
        && notes == old(notes) && order == old(order) && tagDict == old(tagDict) && loadedFiles == old(loadedFiles)
        && TagsOf() == old(TagsOf())
      else
        var lines := fs[file];
        && Parsed(file, lines, fields)
        && (err.None? <==> |fields| == |lines|)
        && (err.Some? ==> Deserialise(|fields|, file, lines[|fields|]) == Err(err.value))
        && LoadedSoFar(old(notes), old(order), old(tagDict), old(TagsOf()), fields, made)
        && (forall k :: 0 <= k < |made| ==> fresh(made[k]) && Carries(made[k], fields[k]))
        && loadedFiles == old(loadedFiles) + (if err.None? then [file] else [])
    }

    /** `load_notes_from_file(file)`; `fields` and `made` name the parsed
        lines and the notes created from them. */
    method LoadNotesFromFile(file: FileId, fs: Files) returns (err: Option<PyError>, ghost fields: seq<Fields>, ghost made: seq<Note>)
      requires Valid()
      modifies this`notes, this`order, this`tagDict, this`loadedFiles
      ensures Valid() && LoadedFile(file, fs, err, fields, made)
      ensures old(notes).Keys <= notes.Keys
      ensures loadedFiles == if err.None? && file !in old(loadedFiles) then old(loadedFiles) + [file] else old(loadedFiles)
    {
      fields, made := [], [];
      if file in loadedFiles {
        return None, fields, made;
      }
      if file !in fs {
        return Some(FileNotFoundError), fields, made;
      }
      err, fields, made := ReadLines(file, fs[file]);
      if err.None? {
        loadedFiles := loadedFiles + [file];
      }
    }

    /** Loading a file whose notes all have new timestamps keeps the tag
        index exact. */
    twostate lemma LoadedExact(file: FileId, fs: Files, new err: Option<PyError>, fields: seq<Fields>, new made: seq<Note>)
      requires old(IndexExact()) && LoadedFile(file, fs, err, fields, made)
      requires FreshStamps(fields, old(notes))
      ensures IndexExact()
    {
      if file !in old(loadedFiles) && file in fs {
        LoadKeepsExact(old(TagsOf()), old(notes), old(tagDict), fields, made);
      }
    }

    /** `load()`: the notes of today's partition file, when that file exists;
        without a title the file name cannot be formed (TypeError). */
    method Load(today: Date, fs: Files) returns (err: Option<PyError>, ghost fields: seq<Fields>, ghost made: seq<Note>)
      requires Valid()
      modifies this`notes, this`order, this`tagDict, this`loadedFiles
      ensures Valid()
      ensures title.None? ==>
        && err == Some(TypeError) && fields == [] && made == []
        && notes == old(notes) && order == old(order) && tagDict == old(tagDict) && loadedFiles == old(loadedFiles)
      ensures title.Some? && DayFile(dir, title.value, today) in fs ==>
        LoadedFile(DayFile(dir, title.value, today), fs, err, fields, made)
      ensures title.Some? && DayFile(dir, title.value, today) !in fs ==>
        && err.None? && fields == [] && made == []
        && notes == old(notes) && order == old(order) && tagDict == old(tagDict) && loadedFiles == old(loadedFiles)
    {
      if title.None? {
        return Some(TypeError), [], [];
      }
      var file := DayFile(dir, title.value, today);
      err, fields, made := None, [], [];
      if file in fs {
        err, fields, made := LoadNotesFromFile(file, fs);
      }
    }

    /** The loop of `load_all_files` over a directory listing: every listed
        file not yet loaded is read, until one raises. */
    method LoadAllFiles(listing: seq<FileId>, fs: Files) returns (err: Option<PyError>)
      requires Valid()
      modifies this`notes, this`order, this`tagDict, this`loadedFiles
      ensures Valid() && old(notes).Keys <= notes.Keys
      ensures err.None? ==> loadedFiles == LoadedAfter(old(loadedFiles), listing)
      ensures err.Some? ==> exists i :: 0 <= i < |listing| && loadedFiles == LoadedAfter(old(loadedFiles), listing[..i])
      ensures (forall f :: f in listing ==> f in old(loadedFiles)) ==>
        && err.None?
        && notes == old(notes) && order == old(order) && tagDict == old(tagDict) && loadedFiles == old(loadedFiles)
    {
      var i := 0;
      while i < |listing|
        invariant i <= |listing| && Valid() && old(notes).Keys <= notes.Keys
        invariant loadedFiles == LoadedAfter(old(loadedFiles), listing[..i])
        invariant (forall f :: f in listing ==> f in old(loadedFiles)) ==>
          notes == old(notes) && order == old(order) && tagDict == old(tagDict) && loadedFiles == old(loadedFiles)
      {
        ghost var fields, made;
        err, fields, made := LoadNotesFromFile(listing[i], fs);
        if err.Some? {
          return;
        }
        assert listing[..i + 1][..i] == listing[..i];
        i := i + 1;
      }
      assert listing[..i] == listing;
      return None;
    }

    /** The loop of `load_notes_from_file` over the lines of the file. */
    method ReadLines(file: FileId, lines: seq<string>) returns (err: Option<PyError>, ghost fields: seq<Fields>, ghost made: seq<Note>)
      requires Valid()
      modifies this`notes, this`order, this`tagDict
      ensures Valid() && Parsed(file, lines, fields)
      ensures err.None? <==> |fields| == |lines|
      ensures err.Some? ==> Deserialise(|fields|, file, lines[|fields|]) == Err(err.value)
      ensures |made| == |fields| && forall k :: 0 <= k < |made| ==> fresh(made[k]) && Carries(made[k], fields[k])
      ensures LoadedSoFar(old(notes), old(order), old(tagDict), old(TagsOf()), fields, made)
    {
      fields, made := [], [];
      ghost var tm0 := TagsOf();
      var k := 0;
      while k < |lines|
        invariant k <= |lines| && |fields| == |made| == k
        invariant Valid() && Parsed(file, lines, fields)
        invariant forall j :: 0 <= j < k ==> fresh(made[j]) && Carries(made[j], fields[j])
        invariant LoadedSoFar(old(notes), old(order), old(tagDict), tm0, fields, made)
      {
        var d := Deserialise(k, file, lines[k]);
        if d.Err? {
          return Some(d.error), fields, made;
        }
        ParsedStep(file, lines, fields, d.value);
        var note := EnterFields(d.value, old(notes), old(order), old(tagDict), tm0, fields, made);
        CarriesAppend(made, fields, note, d.value);
        FreshAppend(made, note);
        fields, made := fields + [d.value], made + [note];
        k := k + 1;
      }
      return None, fields, made;
    }

    // -------------------------------------------------------------------
    // Saving

    /** The file `save` writes a live note to: its own, or else the
        partition file of its day. */
    ghost function FileFor(n: Note): FileId
      requires n.file.Some? || title.Some?
      reads n`file
    {
      if n.file.None? then DayFile(dir, title.value, n.timestamp.date) else n.file.value
    }

    /** The live notes in dictionary order, each with the file `save`
        assigns it and its view once that file is assigned. */
    ghost function LivePlan(): (r: seq<Entry>)
      requires Valid() && Titled()
      reads this, notes.Values
      ensures |r| == |order|
      ensures forall k :: 0 <= k < |order| ==>
        && r[k].note == notes[order[k]] && r[k].file == FileFor(notes[order[k]])
        && r[k].view == ViewOf(notes[order[k]]).(file := Some(r[k].file))
    {
      seq(|order|, k requires 0 <= k < |order| && order[k] in notes && (title.Some? || notes[order[k]].file.Some?)
                     reads this, notes.Values =>
        var n := notes[order[k]];
        Entry(FileFor(n), n, ViewOf(n).(file := Some(FileFor(n)))))
    }

    /** Everything `save` hands to the rewrite, in the order it groups it:
        the live notes, then the deleted notes that have a file. */
    ghost function Plan(): (r: seq<Entry>)
      requires Valid() && Titled()
      reads this, notes.Values, notesDeleted
      ensures |order| <= |r| && forall k :: 0 <= k < |order| ==> r[k].file == FileFor(notes[order[k]])
    {
      LivePlan() + DeletedFrom(notesDeleted, 0)
    }

    /** No note appears twice in the plan, every view names its file and
        every note of the plan is a live or a deleted note. */
    lemma PlanShaped()
      requires Valid() && Titled()
      ensures DistinctNotes(LivePlan()) && DistinctNotes(Plan()) && FilesNamed(Plan())
      ensures forall n :: n in NotesOf(Plan()) ==> n in notes.Values || n in notesDeleted
    {
      LiveDistinct();
      PlanDistinct();
      PlanNotes();
      PlanFilesNamed();
    }

    lemma LiveDistinct()
      requires Valid() && Titled()
      ensures DistinctNotes(LivePlan())
    {
      var live := LivePlan();
      forall i, j | 0 <= i < j < |live| ensures live[i].note != live[j].note {
        assert order[i] != order[j];
      }
    }

    lemma PlanNotes()
      requires Valid() && Titled()
      ensures forall n :: n in NotesOf(Plan()) ==> n in notes.Values || n in notesDeleted
    {
      var live, dead := LivePlan(), DeletedFrom(notesDeleted, 0);
      var es := live + dead;
      forall n | n in NotesOf(es)
        ensures n in notes.Values || n in notesDeleted
      {
        var k :| 0 <= k < |es| && NotesOf(es)[k] == n;
        EntriesAt(live, dead, k);
        assert notesDeleted[0..] == notesDeleted;
      }
    }

    lemma PlanDistinct()
      requires Valid() && Titled()
      ensures DistinctNotes(Plan())
    {
      var live, dead := LivePlan(), DeletedFrom(notesDeleted, 0);
      var es := live + dead;
      LiveDistinct();
      DeletedFromDistinct(notesDeleted, 0);
      assert forall i, j :: 0 <= i < |live| && 0 <= j < |dead| ==> live[i].note != dead[j].note;
      forall i, j | 0 <= i < j < |es| ensures es[i].note != es[j].note {
        EntriesAt(live, dead, i);
        EntriesAt(live, dead, j);
      }
    }

    lemma PlanFilesNamed()
      requires Valid() && Titled()
      ensures FilesNamed(Plan())
    {
      var live, dead := LivePlan(), DeletedFrom(notesDeleted, 0);
      var es := live + dead;
      forall k | 0 <= k < |es| ensures es[k].view.file == Some(es[k].file) {
        EntriesAt(live, dead, k);
      }
    }

    /** `save(fs)`: the notes grouped by file, live notes first, each file
        rewritten in turn until one raises; the live notes without a file
        get their day's file, and the deleted ones are forgotten even when a
        rewrite raises. Without a title, a live note without a file makes
        the first loop raise TypeError before anything has changed. */
    method Save(fs: Files) returns (fs': Files, err: Option<PyError>)
      requires Valid()
      modifies this`notesDeleted, notes.Values`file, notes.Values`fileLine, notesDeleted`fileLine
      ensures Valid()
      ensures notes == old(notes) && order == old(order) && tagDict == old(tagDict) && loadedFiles == old(loadedFiles)
      ensures !old(Titled()) ==>
        err == Some(TypeError) && fs' == fs && notesDeleted == old(notesDeleted) && unchanged(notes.Values, notesDeleted)
      ensures old(Titled()) ==> notesDeleted == []
      ensures old(Titled()) ==> var es := old(Plan()); SaveFrom(fs, FirstFiles(es), es, 0) == Saved(fs', err)
      ensures old(Titled()) ==>
        forall k :: 0 <= k < |order| ==> notes[order[k]].file == Some(old(FileFor(notes[order[k]])))
    {
      if title.None? && exists k :: 0 <= k < |order| && order[k] in notes && notes[order[k]].file.None? {
        return fs, Some(TypeError);
      }
      fs', err := SaveTitled(fs);
    }

    /** `save` once every live note's file can be named. */
    method SaveTitled(fs: Files) returns (fs': Files, err: Option<PyError>)
      requires Valid() && Titled()
      modifies this`notesDeleted, notes.Values`file, notes.Values`fileLine, notesDeleted`fileLine
      ensures Valid() && notesDeleted == []
      ensures notes == old(notes) && order == old(order) && tagDict == old(tagDict) && loadedFiles == old(loadedFiles)
      ensures var es := old(Plan()); SaveFrom(fs, FirstFiles(es), es, 0) == Saved(fs', err)
      ensures forall k :: 0 <= k < |order| ==> notes[order[k]].file == Some(old(FileFor(notes[order[k]])))
    {
      ghost var es := Plan();
      var keys, dict := Group(es);
      fs', err := SaveBatches(keys, dict, fs, es);
    }

    /** The first two loops of `save` and the clearing of `notes_deleted`:
        `file_dict` for the plan, with the live notes given their files. */
    method Group(ghost es: seq<Entry>) returns (keys: seq<FileId>, dict: map<FileId, seq<Note>>)
      requires Valid() && Titled() && es == Plan()
      modifies this`notesDeleted, notes.Values`file
      ensures notesDeleted == []
      ensures keys == FirstFiles(es) && dict == Grouped(es) && DistinctNotes(es)
      ensures forall k :: 0 <= k < |es| ==> ViewOf(es[k].note) == es[k].view
      ensures forall n :: n in NotesOf(es) ==> n in notes.Values || n in old(notesDeleted)
      ensures forall k :: 0 <= k < |order| ==> notes[order[k]].file == Some(es[k].file)
    {
      PlanShaped();
      ghost var live, dead := LivePlan(), DeletedFrom(notesDeleted, 0);
      DeadApart();
      keys, dict := GroupLive(live, dead, es);
      keys, dict := GroupDeleted(keys, dict, dead);
      GroupsOfPlan(live, dead, Dict(keys, dict));
      notesDeleted := [];
    }

    /** The deleted notes handed to the rewrite are not live notes. */
    lemma DeadApart()
      requires Valid()
      ensures forall j :: 0 <= j < |DeletedFrom(notesDeleted, 0)| ==> DeletedFrom(notesDeleted, 0)[j].note !in notes.Values
    {
      assert notesDeleted[0..] == notesDeleted;
    }

    /** The first loop of `save`, with what it leaves the views of the plan. */
    method GroupLive(ghost live: seq<Entry>, ghost dead: seq<Entry>, ghost es: seq<Entry>)
      returns (keys: seq<FileId>, dict: map<FileId, seq<Note>>)
      requires Valid() && Titled() && live == LivePlan() && DistinctNotes(live)
      requires dead == DeletedFrom(notesDeleted, 0) && es == live + dead
      requires forall j :: 0 <= j < |dead| ==> dead[j].note !in notes.Values
      modifies notes.Values`file
      ensures Dict(keys, dict) == AddAll(Dict([], map[]), live)
      ensures forall k :: 0 <= k < |es| ==> ViewOf(es[k].note) == es[k].view
      ensures forall k :: 0 <= k < |order| ==> notes[order[k]].file == Some(live[k].file)
      ensures DeletedFrom(notesDeleted, 0) == dead
    {
      keys, dict := FileLive(live);
      assert forall j :: 0 <= j < |live| ==> ViewOf(live[j].note) == live[j].view by {
        forall j | 0 <= j < |live| ensures ViewOf(live[j].note) == live[j].view {
          assert live[j].note == notes[order[j]];
        }
      }
      assert forall j :: 0 <= j < |dead| ==> ViewOf(dead[j].note) == dead[j].view;
      forall k | 0 <= k < |es|
        ensures ViewOf(es[k].note) == es[k].view
      {
        EntriesAt(live, dead, k);
      }
    }

    /** The loop itself: each live note, in dictionary order, gets its day's
        file when it has none and joins the batch of its file. */
    method FileLive(ghost live: seq<Entry>) returns (keys: seq<FileId>, dict: map<FileId, seq<Note>>)
      requires |live| == |order| && DistinctNotes(live)
      requires forall k :: 0 <= k < |order| ==> order[k] in notes && live[k].note == notes[order[k]]
      requires forall k :: 0 <= k < |live| ==> title.Some? || live[k].note.file.Some?
      requires forall k :: 0 <= k < |live| ==> live[k].file == FileFor(live[k].note)
      modifies notes.Values`file
      ensures Dict(keys, dict) == AddAll(Dict([], map[]), live)
      ensures forall j :: 0 <= j < |live| ==> live[j].note.file == Some(live[j].file)
    {
      keys, dict := [], map[];
      var k := 0;
      while k < |order|
        invariant k <= |order|
        invariant AddAll(Dict(keys, dict), live[k..]) == AddAll(Dict([], map[]), live)
        invariant forall j :: 0 <= j < k ==> live[j].note.file == Some(live[j].file)
        invariant forall j :: k <= j < |live| ==> live[j].note.file == old(live[j].note.file)
      {
        var note := notes[order[k]];
        assert note == live[k].note;
        if note.file.None? {
          note.file := Some(DayFile(dir, title.value, note.timestamp.date));
        }
        AddAllStep(Dict(keys, dict), live, k);
        keys, dict := Join(keys, dict, note.file.value, note, live[k]);
        k := k + 1;
      }
    }

    /** The second loop of `save`: each deleted note that has a file joins
        the batch of that file. */
    method GroupDeleted(keys0: seq<FileId>, dict0: map<FileId, seq<Note>>, ghost dead: seq<Entry>)
      returns (keys: seq<FileId>, dict: map<FileId, seq<Note>>)
      requires dead == DeletedFrom(notesDeleted, 0)
      ensures Dict(keys, dict) == AddAll(Dict(keys0, dict0), dead)
    {
      keys, dict := keys0, dict0;
      var i := 0;
      while i < |notesDeleted|
        invariant i <= |notesDeleted|
        invariant AddAll(Dict(keys, dict), DeletedFrom(notesDeleted, i)) == AddAll(Dict(keys0, dict0), dead)
      {
        var note := notesDeleted[i];
        AddAllDeleted(Dict(keys, dict), notesDeleted, i);
        if note.file.Some? {
          keys, dict := Join(keys, dict, note.file.value, note, Entry(note.file.value, note, ViewOf(note)));
        }
        i := i + 1;
      }
    }

    /** The last loop of `save`: `save_notes_to_file` on each batch in
        order, until one raises. */
    method SaveBatches(keys: seq<FileId>, dict: map<FileId, seq<Note>>, fs: Files, ghost es: seq<Entry>)
      returns (fs': Files, err: Option<PyError>)
      requires keys == FirstFiles(es) && dict == Grouped(es) && DistinctNotes(es)
      requires forall k :: 0 <= k < |es| ==> ViewOf(es[k].note) == es[k].view
      modifies (set n | n in NotesOf(es))`fileLine
      ensures Saved(fs', err) == SaveFrom(fs, keys, es, 0)
    {
      fs' := fs;
      var j := 0;
      while j < |keys|
        invariant j <= |keys|
        invariant SaveFrom(fs', keys, es, j) == SaveFrom(fs, keys, es, 0)
        invariant forall k :: 0 <= k < |es| && es[k].file !in keys[..j] ==> ViewOf(es[k].note) == es[k].view
      {
        var file := keys[j];
        BatchAt(es, keys, dict, j);
        var r;
        r, err := SaveBatch(file, dict[file], fs', es, keys, j);
        if err.Some? {
          fs' := r;
          return;
        }
        fs' := r;
        j := j + 1;
      }
      return fs', None;
    }

  }

  /** Appending `note` to the batch of `file`, or starting that batch. */
  method Join(keys: seq<FileId>, dict: map<FileId, seq<Note>>, file: FileId, note: Note, ghost e: Entry)
    returns (keys': seq<FileId>, dict': map<FileId, seq<Note>>)
    requires e.file == file && e.note == note
    ensures Dict(keys', dict') == Add(Dict(keys, dict), e)
  {
    if file in dict {
      keys', dict' := keys, dict[file := dict[file] + [note]];
    } else {
      keys', dict' := keys + [file], dict[file := [note]];
    }
  }

  /** One batch of the last loop of `save`: the rewrite of `file` from the
      views of its entries; the views of the entries of files not yet
      written stay as they were. */
  method SaveBatch(file: FileId, batch: seq<Note>, fs: Files, ghost es: seq<Entry>, ghost keys: seq<FileId>, ghost j: nat)
    returns (r: Files, err: Option<PyError>)
    requires j < |keys| && file == keys[j] && file !in keys[..j] && keys[..j + 1] == keys[..j] + [file]
    requires DistinctNotes(es) && batch == NotesOf(With(es, file))
    requires forall k :: 0 <= k < |es| && es[k].file !in keys[..j] ==> ViewOf(es[k].note) == es[k].view
    modifies (set n | n in batch)`fileLine
    ensures SaveFrom(fs, keys, es, j) == if err.Some? then Saved(r, err) else SaveFrom(r, keys, es, j + 1)
    ensures forall k :: 0 <= k < |es| && es[k].file !in keys[..j + 1] ==> ViewOf(es[k].note) == es[k].view
  {
    ghost var w := With(es, file);
    WithMembers(es, file);
    WithDistinct(es, file);
    forall m | 0 <= m < |w|
      ensures ViewOf(w[m].note) == w[m].view
    {
      var k :| 0 <= k < |es| && es[k] == w[m];
    }
    assert Views(batch) == ViewsOf(w);
    SaveFromStep(fs, keys, es, j, Rewrite(file, fs, ViewsOf(w)));
    r, err := SaveNotesToFile(file, batch, fs);
  }

  /** What the query lemmas say about the picked timestamps, carried over to
      the notes under them. */
  lemma QueryFacts(timestamps: seq<Timestamp>, tm: map<Timestamp, seq<string>>, ns: map<Timestamp, Note>,
                   rs: Option<Date>, re: Option<Date>, filterTags: Option<seq<string>>,
                   picked: seq<Timestamp>, result: seq<Note>)
    requires Ascending(timestamps) && forall t :: t in timestamps <==> t in ns
    requires forall t :: t in ns ==> ns[t].timestamp == t
    requires forall k :: 0 <= k < |timestamps| ==> timestamps[k] in tm
    requires picked == QueryResult(timestamps, tm, rs, re, filterTags)
    requires |result| == |picked| && forall k :: 0 <= k < |picked| ==> picked[k] in ns && result[k] == ns[picked[k]]
    ensures forall i, j :: 0 <= i < j < |result| ==> Before(result[i].timestamp, result[j].timestamp)
    ensures forall k :: 0 <= k < |result| ==> result[k].timestamp in ns && Wanted(result[k].timestamp, tm, rs, re, filterTags)
    ensures (rs.None? || exists t :: t in ns && t.date == rs.value) ==>
      forall t :: t in ns && Wanted(t, tm, rs, re, filterTags) ==>
        exists k :: 0 <= k < |result| && result[k] == ns[t]
  {
    QuerySound(timestamps, tm, rs, re, filterTags);
    assert forall k :: 0 <= k < |result| ==> result[k].timestamp == picked[k];
    if rs.None? || exists t :: t in ns && t.date == rs.value {
      if rs.Some? {
        var t :| t in ns && t.date == rs.value;
        assert t in timestamps;
      }
      QueryComplete(timestamps, tm, rs, re, filterTags);
      forall t | t in ns && Wanted(t, tm, rs, re, filterTags)
        ensures exists k :: 0 <= k < |result| && result[k] == ns[t]
      {
        assert t in timestamps;
        var k :| 0 <= k < |picked| && picked[k] == t;
        assert result[k] == ns[t];
      }
    }
  }
}
