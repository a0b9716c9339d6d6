/** What loading and saving a notebook do to its values: the notes a file
    enters one after the other, the list of files already read, and the
    batches `save` hands to the per-file rewrite. */
module Persist {
  import opened Common
  import opened Time
  import opened Notes
  import opened TagIndex
  import opened FileStore

  /** The partition file of a day: the title, an underscore, the day's text
      and `.tsv`, inside the directory. */
  function DayFile(dir: string, title: string, d: Date): FileId {
    dir + "/" + title + "_" + DateText(d) + ".tsv"
  }

  // ---------------------------------------------------------------------
  // Loading one file

  /** `n` is the note `create_note` makes from the fields `f`. */
  predicate Carries(n: Note, f: Fields)
    reads n
  {
    && n.timestamp == f.timestamp && n.file == Some(f.file) && n.fileLine == Some(f.fileLine)
    && n.text == Some(f.text) && n.tags == f.tags && !n.deleted
  }

  /** `fields` are the first lines of `file`, each parsed with its line number. */
  predicate Parsed(file: FileId, lines: seq<string>, fields: seq<Fields>) {
    && |fields| <= |lines|
    && forall k :: 0 <= k < |fields| ==> Deserialise(k, file, lines[k]) == Ok(fields[k])
  }

  /** One more parsed line. */
  lemma ParsedStep(file: FileId, lines: seq<string>, fields: seq<Fields>, f: Fields)
    requires Parsed(file, lines, fields) && |fields| < |lines|
    requires Deserialise(|fields|, file, lines[|fields|]) == Ok(f)
    ensures Parsed(file, lines, fields + [f])
  {
    assert forall k :: 0 <= k < |fields| ==> (fields + [f])[k] == fields[k];
  }

  /** Appending a note that carries its fields. */
  lemma CarriesAppend(made: seq<Note>, fields: seq<Fields>, n: Note, f: Fields)
    requires |made| == |fields| && forall k :: 0 <= k < |made| ==> Carries(made[k], fields[k])
    requires Carries(n, f)
    ensures forall k :: 0 <= k < |made| + 1 ==> Carries((made + [n])[k], (fields + [f])[k])
  {
  }

  /** Appending a new note to new notes. */
  twostate lemma FreshAppend(new made: seq<Note>, new n: Note)
    requires (forall k :: 0 <= k < |made| ==> fresh(made[k])) && fresh(n)
    ensures forall k :: 0 <= k < |made| + 1 ==> fresh((made + [n])[k])
  {
  }

  /** The dictionary after `made` is entered note by note. */
  function Entered(ns: map<Timestamp, Note>, made: seq<Note>): (r: map<Timestamp, Note>)
    ensures forall t :: t in r <==> t in ns || exists k :: 0 <= k < |made| && made[k].timestamp == t
    decreases |made|
  {
    if |made| == 0 then ns
    else
      var k := |made| - 1;
      var r0 := Entered(ns, made[..k]);
      assert forall j :: 0 <= j < k ==> made[..k][j] == made[j];
      r0[made[k].timestamp := made[k]]
  }

  /** The dictionary's insertion order after `made` is entered: a timestamp
      not yet present goes to the end. */
  function Grown(order: seq<Timestamp>, ns: map<Timestamp, Note>, made: seq<Note>): seq<Timestamp>
    decreases |made|
  {
    if |made| == 0 then order
    else
      var k := |made| - 1;
      var o := Grown(order, ns, made[..k]);
      if made[k].timestamp in Entered(ns, made[..k]) then o else o + [made[k].timestamp]
  }

  /** The tag lists by timestamp after the notes of `fs` are entered. */
  function LoadTags(tm: map<Timestamp, seq<string>>, fs: seq<Fields>): map<Timestamp, seq<string>>
    decreases |fs|
  {
    if |fs| == 0 then tm
    else
      var k := |fs| - 1;
      LoadTags(tm, fs[..k])[fs[k].timestamp := fs[k].tags]
  }

  /** The tag index after each note `made[k]` has had the tags of `fs[k]`
      set on it, in order. */
  function LoadIndex(ix: Index, fs: seq<Fields>, made: seq<Note>): Index
    requires |fs| == |made|
    decreases |fs|
  {
    if |fs| == 0 then ix
    else
      var k := |fs| - 1;
      SetTags(TagState([], LoadIndex(ix, fs[..k], made[..k])), fs[k].tags, fs[k].timestamp, made[k]).state.index
  }

  /** One more note entered, unfolded. */
  lemma LoadStep(ns: map<Timestamp, Note>, order: seq<Timestamp>, ix: Index, tm: map<Timestamp, seq<string>>,
                 fs: seq<Fields>, made: seq<Note>, f: Fields, n: Note)
    requires |fs| == |made|
    ensures Entered(ns, made + [n]) == Entered(ns, made)[n.timestamp := n]
    ensures Grown(order, ns, made + [n]) ==
      if n.timestamp in Entered(ns, made) then Grown(order, ns, made) else Grown(order, ns, made) + [n.timestamp]
    ensures LoadIndex(ix, fs + [f], made + [n]) == SetTags(TagState([], LoadIndex(ix, fs, made)), f.tags, f.timestamp, n).state.index
    ensures LoadTags(tm, fs + [f]) == LoadTags(tm, fs)[f.timestamp := f.tags]
  {
    assert (made + [n])[..|made|] == made && (fs + [f])[..|fs|] == fs;
  }

  /** The timestamps of `fs` are distinct and new to `ns`. */
  predicate FreshStamps(fs: seq<Fields>, ns: map<Timestamp, Note>) {
    && (forall k :: 0 <= k < |fs| ==> fs[k].timestamp !in ns)
    && (forall j, k :: 0 <= j < k < |fs| ==> fs[j].timestamp != fs[k].timestamp)
  }

  /** A prefix of fresh stamps is fresh, and the next stamp is new to what
      the prefix entered. */
  lemma FreshStampsPrefix(fs: seq<Fields>, made: seq<Note>, ns: map<Timestamp, Note>, k: nat)
    requires k < |fs| == |made| && FreshStamps(fs, ns)
    requires forall j :: 0 <= j < |fs| ==> made[j].timestamp == fs[j].timestamp
    ensures FreshStamps(fs[..k], ns) && forall j :: 0 <= j < k ==> made[..k][j].timestamp == fs[..k][j].timestamp
    ensures fs[k].timestamp !in Entered(ns, made[..k])
  {
    assert forall j :: 0 <= j < k ==> fs[..k][j] == fs[j] && made[..k][j] == made[j];
  }

  /** Loading notes whose timestamps are all new keeps the tag index exact. */
  lemma {:induction false} LoadKeepsExact(tm: map<Timestamp, seq<string>>, ns: map<Timestamp, Note>, ix: Index,
                                          fs: seq<Fields>, made: seq<Note>)
    requires |fs| == |made| && tm.Keys == ns.Keys && Matches(ix, PairsOf(tm), ns)
    requires forall k :: 0 <= k < |fs| ==> made[k].timestamp == fs[k].timestamp
    requires FreshStamps(fs, ns)
    ensures LoadTags(tm, fs).Keys == Entered(ns, made).Keys
    ensures Matches(LoadIndex(ix, fs, made), PairsOf(LoadTags(tm, fs)), Entered(ns, made))
    decreases |fs|
  {
    if |fs| > 0 {
      var k := |fs| - 1;
      var fs0, made0 := fs[..k], made[..k];
      assert fs == fs0 + [fs[k]] && made == made0 + [made[k]];
      var f, n := fs[k], made[k];
      var tm0, ns0, ix0 := LoadTags(tm, fs0), Entered(ns, made0), LoadIndex(ix, fs0, made0);
      var r := SetTags(TagState([], ix0), f.tags, f.timestamp, n);
      assert LoadTags(tm, fs) == tm0[f.timestamp := f.tags] && Entered(ns, made) == ns0[f.timestamp := n]
          && LoadIndex(ix, fs, made) == r.state.index by {
        LoadStep(ns, [], ix, tm, fs0, made0, f, n);
      }
      assert tm0[f.timestamp := f.tags].Keys == ns0[f.timestamp := n].Keys
          && Matches(r.state.index, PairsOf(tm0[f.timestamp := f.tags]), ns0[f.timestamp := n]) by {
        FreshStampsPrefix(fs, made, ns, k);
        LoadKeepsExact(tm, ns, ix, fs0, made0);
        CreateKeepsExact(tm0, ns0, ix0, f.timestamp, n, f.tags);
      }
    }
  }

  // ---------------------------------------------------------------------
  // Loading a list of files

  /** `loaded_files` after each listed file not yet loaded is read. */
  function LoadedAfter(loaded: seq<FileId>, listing: seq<FileId>): seq<FileId>
    decreases |listing|
  {
    if |listing| == 0 then loaded
    else
      var k := |listing| - 1;
      var l := LoadedAfter(loaded, listing[..k]);
      if listing[k] in l then l else l + [listing[k]]
  }

  /** Every listed file ends up loaded, each file at most once, and what was
      loaded before stays in front. */
  lemma {:induction false} LoadedAfterCovers(loaded: seq<FileId>, listing: seq<FileId>)
    ensures loaded <= LoadedAfter(loaded, listing)
    ensures forall f :: f in LoadedAfter(loaded, listing) <==> f in loaded || f in listing
    ensures Distinct(loaded) ==> Distinct(LoadedAfter(loaded, listing))
    decreases |listing|
  {
    if |listing| > 0 {
      var k := |listing| - 1;
      LoadedAfterCovers(loaded, listing[..k]);
      assert listing == listing[..k] + [listing[k]];
    }
  }

  /** Loading the same listing again reads no file. */
  lemma {:induction false} LoadedAfterIdempotent(loaded: seq<FileId>, listing: seq<FileId>)
    ensures LoadedAfter(LoadedAfter(loaded, listing), listing) == LoadedAfter(loaded, listing)
  {
    LoadedAfterCovers(loaded, listing);
    AlreadyLoaded(LoadedAfter(loaded, listing), listing);
  }

  /** A listing whose files are all loaded changes nothing. */
  lemma {:induction false} AlreadyLoaded(loaded: seq<FileId>, listing: seq<FileId>)
    requires forall f :: f in listing ==> f in loaded
    ensures LoadedAfter(loaded, listing) == loaded
    decreases |listing|
  {
    if |listing| > 0 {
      var k := |listing| - 1;
      assert forall f :: f in listing[..k] ==> f in listing;
      AlreadyLoaded(loaded, listing[..k]);
    }
  }

  // ---------------------------------------------------------------------
  // Saving: grouping by file

  /** A note `save` hands to the rewrite of `file`, with what the rewrite
      reads of it. */
  datatype Entry = Entry(file: FileId, note: Note, view: View)

  function NotesOf(es: seq<Entry>): (r: seq<Note>)
    ensures |r| == |es| && forall k :: 0 <= k < |es| ==> r[k] == es[k].note
  {
    seq(|es|, k requires 0 <= k < |es| => es[k].note)
  }

  function ViewsOf(es: seq<Entry>): (r: seq<View>)
    ensures |r| == |es| && forall k :: 0 <= k < |es| ==> r[k] == es[k].view
  {
    seq(|es|, k requires 0 <= k < |es| => es[k].view)
  }

  /** The keys of `file_dict` in insertion order: each file the first time
      an entry names it. */
  function FirstFiles(es: seq<Entry>): seq<FileId>
    decreases |es|
  {
    if |es| == 0 then []
    else
      var k := |es| - 1;
      var fs := FirstFiles(es[..k]);
      if es[k].file in fs then fs else fs + [es[k].file]
  }

  /** The entries for `file`, in order. */
  function With(es: seq<Entry>, file: FileId): seq<Entry>
    decreases |es|
  {
    if |es| == 0 then []
    else
      var k := |es| - 1;
      With(es[..k], file) + (if es[k].file == file then [es[k]] else [])
  }

  /** `file_dict` after the entries are appended one by one. */
  function Grouped(es: seq<Entry>): map<FileId, seq<Note>>
    decreases |es|
  {
    if |es| == 0 then map[]
    else
      var k := |es| - 1;
      var g := Grouped(es[..k]);
      var e := es[k];
      if e.file in g then g[e.file := g[e.file] + [e.note]] else g[e.file := [e.note]]
  }

  /** One more entry, unfolded. */
  lemma GroupStep(es: seq<Entry>, e: Entry)
    ensures FirstFiles(es + [e]) == if e.file in FirstFiles(es) then FirstFiles(es) else FirstFiles(es) + [e.file]
    ensures Grouped(es + [e]) ==
      var g := Grouped(es);
      if e.file in g then g[e.file := g[e.file] + [e.note]] else g[e.file := [e.note]]
  {
    assert (es + [e])[..|es|] == es;
  }

  /** The dictionary's keys are the files named, in first-appearance order
      and each listed once. */
  lemma {:induction false} FirstFilesCover(es: seq<Entry>)
    ensures Distinct(FirstFiles(es))
    ensures forall f :: f in FirstFiles(es) <==> exists k :: 0 <= k < |es| && es[k].file == f
    decreases |es|
  {
    if |es| > 0 {
      var k := |es| - 1;
      var es0 := es[..k];
      FirstFilesCover(es0);
      assert forall j :: 0 <= j < k ==> es0[j] == es[j];
    }
  }

  /** Under each file lie the notes of its entries, in order. */
  lemma {:induction false} GroupedIsWith(es: seq<Entry>)
    ensures forall f :: f in Grouped(es) <==> f in FirstFiles(es)
    ensures forall f :: f in Grouped(es) ==> Grouped(es)[f] == NotesOf(With(es, f))
    decreases |es|
  {
    if |es| > 0 {
      var k := |es| - 1;
      var es0 := es[..k];
      GroupedIsWith(es0);
      forall f | f in Grouped(es)
        ensures Grouped(es)[f] == NotesOf(With(es, f))
      {
        GroupedAt(es0, es[k], f);
      }
    }
  }

  lemma GroupedAt(es0: seq<Entry>, e: Entry, f: FileId)
    requires forall f :: f in Grouped(es0) ==> Grouped(es0)[f] == NotesOf(With(es0, f))
    requires f in Grouped(es0 + [e])
    ensures Grouped(es0 + [e])[f] == NotesOf(With(es0 + [e], f))
  {
    GroupStep(es0, e);
    var es := es0 + [e];
    assert es[..|es0|] == es0;
    var tail := if e.file == f then [e] else [];
    assert With(es, f) == With(es0, f) + tail;
    NotesAppend(With(es0, f), tail);
    if f !in Grouped(es0) {
      assert e.file == f;
      EmptyWith(es0, f);
    }
  }

  /** A file absent from the dictionary has no entries. */
  lemma {:induction false} EmptyWith(es: seq<Entry>, f: FileId)
    requires f !in Grouped(es)
    ensures With(es, f) == []
    decreases |es|
  {
    if |es| > 0 {
      var k := |es| - 1;
      EmptyWith(es[..k], f);
    }
  }

  lemma NotesAppend(a: seq<Entry>, b: seq<Entry>)
    ensures NotesOf(a + b) == NotesOf(a) + NotesOf(b)
  {
  }

  /** The entries for `file` are exactly those of `es` naming it. */
  lemma {:induction false} WithMembers(es: seq<Entry>, file: FileId)
    ensures forall k :: 0 <= k < |With(es, file)| ==> With(es, file)[k] in es && With(es, file)[k].file == file
    ensures forall k :: 0 <= k < |es| && es[k].file == file ==> es[k] in With(es, file)
    decreases |es|
  {
    if |es| > 0 {
      var k := |es| - 1;
      WithMembers(es[..k], file);
      assert forall j :: 0 <= j < k ==> es[..k][j] == es[j];
    }
  }

  /** The notes of the entries for `file` are notes of `es`. */
  lemma WithNotes(es: seq<Entry>, file: FileId)
    ensures forall n :: n in NotesOf(With(es, file)) ==> n in NotesOf(es)
  {
    WithMembers(es, file);
    var w := With(es, file);
    forall n | n in NotesOf(w)
      ensures n in NotesOf(es)
    {
      var m :| 0 <= m < |w| && NotesOf(w)[m] == n;
      var k :| 0 <= k < |es| && es[k] == w[m];
      assert NotesOf(es)[k] == n;
    }
  }

  /** The notes of `es` are distinct. */
  predicate DistinctNotes(es: seq<Entry>) {
    forall j, k :: 0 <= j < k < |es| ==> es[j].note != es[k].note
  }

  /** Distinct notes stay distinct within one file's entries, and a note of
      another file's entry is not among them. */
  lemma {:induction false} WithDistinct(es: seq<Entry>, file: FileId)
    requires DistinctNotes(es)
    ensures DistinctNotes(With(es, file)) && Distinct(NotesOf(With(es, file)))
    ensures forall k :: 0 <= k < |es| && es[k].file != file ==> es[k].note !in NotesOf(With(es, file))
    decreases |es|
  {
    if |es| > 0 {
      var k := |es| - 1;
      var es0 := es[..k];
      assert forall j :: 0 <= j < k ==> es0[j] == es[j];
      WithDistinct(es0, file);
      WithMembers(es0, file);
      var w0 := With(es0, file);
      var tail := if es[k].file == file then [es[k]] else [];
      assert With(es, file) == w0 + tail by { assert es == es0 + [es[k]]; }
      assert forall e :: e in w0 ==> e.note != es[k].note;
      assert NotesOf(w0 + tail) == NotesOf(w0) + NotesOf(tail) by { NotesAppend(w0, tail); }
      assert DistinctNotes(w0 + tail) by {
        forall i, j | 0 <= i < j < |w0 + tail| ensures (w0 + tail)[i].note != (w0 + tail)[j].note {
          EntriesAt(w0, tail, i); EntriesAt(w0, tail, j);
        }
      }
    }
  }

  /** Indexing into a concatenation of entries. */
  lemma EntriesAt(a: seq<Entry>, b: seq<Entry>, k: nat)
    requires k < |a| + |b|
    ensures (a + b)[k] == if k < |a| then a[k] else b[k - |a|]
  {
  }

  /** The deleted notes from index `i` on that `save` still writes: those
      that have a file. */
  function DeletedFrom(ds: seq<Note>, i: nat): (r: seq<Entry>)
    requires i <= |ds|
    reads ds
    ensures forall j :: 0 <= j < |r| ==>
      && r[j].note in ds[i..] && r[j].note.file == Some(r[j].file) && r[j].view == ViewOf(r[j].note)
    decreases |ds| - i
  {
    if i == |ds| then []
    else
      var n := ds[i];
      assert forall j :: i + 1 <= j < |ds| ==> ds[j] in ds[i..];
      (if n.file.Some? then [Entry(n.file.value, n, ViewOf(n))] else []) + DeletedFrom(ds, i + 1)
  }

  /** Distinct deleted notes give entries with distinct notes. */
  lemma {:induction false} DeletedFromDistinct(ds: seq<Note>, i: nat)
    requires i <= |ds| && Distinct(ds)
    ensures DistinctNotes(DeletedFrom(ds, i))
    decreases |ds| - i
  {
    if i < |ds| {
      DeletedFromDistinct(ds, i + 1);
      var rest := DeletedFrom(ds, i + 1);
      assert forall j :: 0 <= j < |rest| ==> rest[j].note != ds[i] by {
        forall j | 0 <= j < |rest| ensures rest[j].note != ds[i] {
          var m :| i + 1 <= m < |ds| && ds[m] == rest[j].note;
        }
      }
    }
  }

  /** `file_dict`: its keys in insertion order and the batch under each. */
  datatype Dict = Dict(keys: seq<FileId>, batches: map<FileId, seq<Note>>)

  /** Appending one entry's note to the batch of its file. */
  function Add(d: Dict, e: Entry): Dict {
    if e.file in d.batches then Dict(d.keys, d.batches[e.file := d.batches[e.file] + [e.note]])
    else Dict(d.keys + [e.file], d.batches[e.file := [e.note]])
  }

  /** Appending each entry in turn. */
  function AddAll(d: Dict, es: seq<Entry>): Dict
    decreases |es|
  {
    if |es| == 0 then d else AddAll(Add(d, es[0]), es[1..])
  }

  /** One entry, then the rest. */
  lemma AddAllStep(d: Dict, es: seq<Entry>, k: nat)
    requires k < |es|
    ensures AddAll(d, es[k..]) == AddAll(Add(d, es[k]), es[k + 1..])
  {
    assert es[k..][1..] == es[k + 1..];
  }

  /** The deleted note at `i`, then the rest. */
  lemma AddAllDeleted(d: Dict, ds: seq<Note>, i: nat)
    requires i < |ds|
    ensures AddAll(d, DeletedFrom(ds, i)) ==
      var n := ds[i];
      AddAll(if n.file.Some? then Add(d, Entry(n.file.value, n, ViewOf(n))) else d, DeletedFrom(ds, i + 1))
  {
    var n := ds[i];
    if n.file.Some? {
      var e := Entry(n.file.value, n, ViewOf(n));
      var rest := DeletedFrom(ds, i + 1);
      assert DeletedFrom(ds, i) == [e] + rest;
      assert ([e] + rest)[0] == e && ([e] + rest)[1..] == rest;
    } else {
      assert DeletedFrom(ds, i) == [] + DeletedFrom(ds, i + 1);
      assert [] + DeletedFrom(ds, i + 1) == DeletedFrom(ds, i + 1);
    }
  }

  /** The dictionary's keys are the files of `FirstFiles`. */
  lemma {:induction false} GroupedKeys(es: seq<Entry>)
    ensures forall f :: f in Grouped(es) <==> f in FirstFiles(es)
    decreases |es|
  {
    if |es| > 0 {
      GroupedKeys(es[..|es| - 1]);
    }
  }

  /** Appending `a` and then `b` is appending `a + b`. */
  lemma {:induction false} AddAllAppend(d: Dict, a: seq<Entry>, b: seq<Entry>)
    ensures AddAll(d, a + b) == AddAll(AddAll(d, a), b)
    decreases |a|
  {
    if |a| > 0 {
      assert (a + b)[1..] == a[1..] + b;
      AddAllAppend(Add(d, a[0]), a[1..], b);
    } else {
      assert a + b == b;
    }
  }

  /** The dictionary built from the live entries and then the deleted ones
      is the dictionary of the whole plan. */
  lemma GroupsOfPlan(live: seq<Entry>, dead: seq<Entry>, d: Dict)
    requires d == AddAll(AddAll(Dict([], map[]), live), dead)
    ensures d == Dict(FirstFiles(live + dead), Grouped(live + dead))
  {
    AddAllAppend(Dict([], map[]), live, dead);
    AddAllGroups([], live + dead);
    assert [] + (live + dead) == live + dead;
  }

  /** Starting from the dictionary of `p`, appending `es` gives the
      dictionary of `p + es`. */
  lemma {:induction false} AddAllGroups(p: seq<Entry>, es: seq<Entry>)
    ensures AddAll(Dict(FirstFiles(p), Grouped(p)), es) == Dict(FirstFiles(p + es), Grouped(p + es))
    decreases |es|
  {
    if |es| > 0 {
      GroupStep(p, es[0]);
      GroupedKeys(p);
      assert Add(Dict(FirstFiles(p), Grouped(p)), es[0]) == Dict(FirstFiles(p + [es[0]]), Grouped(p + [es[0]]));
      AddAllGroups(p + [es[0]], es[1..]);
      assert (p + [es[0]]) + es[1..] == p + es;
    } else {
      assert p + es == p;
    }
  }

  // ---------------------------------------------------------------------
  // Saving: the rewrite of each file

  datatype Saved = Saved(files: Files, err: Option<PyError>)

  /** `save_notes_to_file` on each file of `files` from index `j` on, with
      that file's entries, up to the first that raises. */
  function SaveFrom(fs: Files, files: seq<FileId>, es: seq<Entry>, j: nat): Saved
    requires j <= |files|
    decreases |files| - j
  {
    if j == |files| then Saved(fs, None)
    else
      var r := Rewrite(files[j], fs, ViewsOf(With(es, files[j])));
      if r.err.Some? then Saved(r.files, r.err) else SaveFrom(r.files, files, es, j + 1)
  }

  /** The next file of a list of distinct files is not among the earlier ones. */
  lemma PrefixStep(files: seq<FileId>, j: nat)
    requires j < |files| && Distinct(files)
    ensures files[j] !in files[..j] && files[..j + 1] == files[..j] + [files[j]]
  {
  }

  /** The batch under the `j`-th key of the dictionary of `es`. */
  lemma BatchAt(es: seq<Entry>, keys: seq<FileId>, dict: map<FileId, seq<Note>>, j: nat)
    requires keys == FirstFiles(es) && dict == Grouped(es) && j < |keys|
    ensures keys[j] in dict && dict[keys[j]] == NotesOf(With(es, keys[j]))
    ensures forall n :: n in dict[keys[j]] ==> n in NotesOf(es)
    ensures keys[j] !in keys[..j] && keys[..j + 1] == keys[..j] + [keys[j]]
  {
    FirstFilesCover(es);
    GroupedIsWith(es);
    WithNotes(es, keys[j]);
    PrefixStep(keys, j);
  }

  /** One rewrite, then the rest. */
  lemma SaveFromStep(fs: Files, files: seq<FileId>, es: seq<Entry>, j: nat, r: Outcome)
    requires j < |files| && r == Rewrite(files[j], fs, ViewsOf(With(es, files[j])))
    ensures SaveFrom(fs, files, es, j) == if r.err.Some? then Saved(r.files, r.err) else SaveFrom(r.files, files, es, j + 1)
  {
  }

  /** Each entry's view names the entry's file. */
  predicate FilesNamed(es: seq<Entry>) {
    forall k :: 0 <= k < |es| ==> es[k].view.file == Some(es[k].file)
  }

  /** A rewrite for a batch whose notes all name `file` changes no other file. */
  lemma RewriteTouchesOne(file: FileId, fs: Files, vs: seq<View>)
    requires forall k :: 0 <= k < |vs| ==> vs[k].file == Some(file)
    ensures forall g :: g != file ==> (g in Rewrite(file, fs, vs).files <==> g in fs)
    ensures forall g :: g != file && g in fs ==> Rewrite(file, fs, vs).files[g] == fs[g]
  {
  }

  /** `save` writes no file outside the batches. */
  lemma {:induction false} SaveTouchesBatches(fs: Files, files: seq<FileId>, es: seq<Entry>, j: nat)
    requires j <= |files| && FilesNamed(es)
    ensures var r := SaveFrom(fs, files, es, j);
      && (forall g :: g !in files[j..] ==> (g in r.files <==> g in fs))
      && (forall g :: g !in files[j..] && g in fs ==> r.files[g] == fs[g])
    decreases |files| - j
  {
    if j < |files| {
      var f := files[j];
      var w := With(es, f);
      WithMembers(es, f);
      forall k | 0 <= k < |w|
        ensures ViewsOf(w)[k].file == Some(f)
      {
        assert w[k] in es;
      }
      RewriteTouchesOne(files[j], fs, ViewsOf(w));
      var r := Rewrite(files[j], fs, ViewsOf(w));
      SaveTouchesBatches(r.files, files, es, j + 1);
      assert forall g :: g in files[j + 1..] ==> g in files[j..];
    }
  }
}

