/** The tag index (`Notebook.tag_dict`): a map from each tag to the bucket of
    notes carrying it, keyed by timestamp, together with the value-level
    effect of the operations that edit a note's tag list and the index in
    step (`add_tag_to_note`, `remove_tag_from_note`, the loops of
    `set_note_tags` and `delete_note`). */
module TagIndex {
  import opened Common
  import opened Time
  import opened Notes

  type Bucket = map<Timestamp, Note>
  type Index = map<string, Bucket>

  // ---------------------------------------------------------------------
  // Single entries

  /** The index with `n` under `ts` in the bucket of `tag`, creating the
      bucket when the tag is new. */
  function AddEntry(ix: Index, tag: string, ts: Timestamp, n: Note): (r: Index)
    ensures r.Keys == ix.Keys + {tag}
    ensures r[tag].Keys == (if tag in ix then ix[tag].Keys else {}) + {ts} && r[tag][ts] == n
    ensures forall u :: tag in ix && u in ix[tag] && u != ts ==> r[tag][u] == ix[tag][u]
    ensures forall t :: t in ix && t != tag ==> r[t] == ix[t]
  {
    var b: Bucket := if tag in ix then ix[tag] else map[];
    ix[tag := b[ts := n]]
  }

  /** The index without the entry of `ts` under `tag`, and without the bucket
      of `tag` when that leaves it empty. */
  function DropEntry(ix: Index, tag: string, ts: Timestamp): (r: Index)
    requires tag in ix && ts in ix[tag]
    ensures tag in r ==> r[tag].Keys == ix[tag].Keys - {ts} && r[tag] != map[]
    ensures tag !in r <==> ix[tag].Keys == {ts}
    ensures r.Keys == ix.Keys || r.Keys == ix.Keys - {tag}
    ensures forall u :: tag in r && u in r[tag] ==> r[tag][u] == ix[tag][u]
    ensures forall t :: t in ix && t != tag ==> t in r && r[t] == ix[t]
  {
    var b := ix[tag] - {ts};
    if |b| == 0 then
      assert b.Keys == {};
      ix - {tag}
    else
      assert ts !in b && b != map[];
      ix[tag := b]
  }

  // ---------------------------------------------------------------------
  // Python list helpers

  /** `s.index(x)`: the first position of `x`. */
  function FirstIndex(s: seq<string>, x: string): (i: nat)
    requires x in s
    ensures i < |s| && s[i] == x && x !in s[..i]
  {
    if s[0] == x then 0 else 1 + FirstIndex(s[1..], x)
  }

  /** `s.remove(x)`: drop the first occurrence of `x`. */
  function RemoveFirst(s: seq<string>, x: string): (r: seq<string>)
    requires x in s
    ensures |r| == |s| - 1
  {
    var i := FirstIndex(s, x);
    s[..i] + s[i + 1..]
  }

  /** `s.remove(x)` takes away one occurrence of `x` and nothing else. */
  lemma RemoveFirstCount(s: seq<string>, x: string)
    requires x in s
    ensures multiset(RemoveFirst(s, x)) == multiset(s) - multiset{x}
  {
    var i := FirstIndex(s, x);
    assert s == s[..i] + [x] + s[i + 1..];
  }

  /** The elements of `s` that occur in `ks`, in order. */
  function Keep(s: seq<string>, ks: seq<string>): (r: seq<string>)
    ensures forall x :: x in r <==> x in s && x in ks
  {
    if |s| == 0 then []
    else if s[0] in ks then [s[0]] + Keep(s[1..], ks)
    else Keep(s[1..], ks)
  }

  /** The elements of `s` that do not occur in `ks`, in order. */
  function Omit(s: seq<string>, ks: seq<string>): (r: seq<string>)
    ensures forall x :: x in r <==> x in s && x !in ks
  {
    if |s| == 0 then []
    else if s[0] in ks then Omit(s[1..], ks)
    else [s[0]] + Omit(s[1..], ks)
  }

  /** The elements at positions 0, 2, 4, ... */
  function Evens(s: seq<string>): seq<string>
    decreases |s|, 1
  {
    if |s| == 0 then [] else [s[0]] + Odds(s[1..])
  }

  /** The elements at positions 1, 3, 5, ... */
  function Odds(s: seq<string>): seq<string>
    decreases |s|, 0
  {
    if |s| == 0 then [] else Evens(s[1..])
  }

  // ---------------------------------------------------------------------
  // A note's tag list and the index, edited together

  datatype TagState = TagState(tags: seq<string>, index: Index)

  /** The state an edit leaves and the exception it raised, if any; on an
      exception the state is the one at the point of the raise. */
  datatype Step = Step(state: TagState, err: Option<PyError>)

  /** `remove_tag_from_note(note, tag)`: removing the tag from the list raises
      ValueError when the tag is absent; popping the timestamp raises KeyError
      when the bucket or the entry is missing, after the tag list has
      already changed. */
  function RemoveTag(st: TagState, tag: string, ts: Timestamp): (r: Step)
    ensures r.err.None? <==> tag in st.tags && tag in st.index && ts in st.index[tag]
    ensures r.err == Some(ValueError) <==> tag !in st.tags
    ensures r.err.None? ==> r.state == TagState(RemoveFirst(st.tags, tag), DropEntry(st.index, tag, ts))
    ensures r.err == Some(KeyError) ==> r.state == TagState(RemoveFirst(st.tags, tag), st.index)
    ensures r.err == Some(ValueError) ==> r.state == st
  {
    if tag !in st.tags then Step(st, Some(ValueError))
    else
      var tags := RemoveFirst(st.tags, tag);
      if tag !in st.index || ts !in st.index[tag] then Step(TagState(tags, st.index), Some(KeyError))
      else Step(TagState(tags, DropEntry(st.index, tag, ts)), None)
  }

  /** `add_tag_to_note(note, tag)`: append the tag and enter the note in its bucket. */
  function AddTag(st: TagState, tag: string, ts: Timestamp, n: Note): TagState {
    TagState(st.tags + [tag], AddEntry(st.index, tag, ts, n))
  }

  /** The removal of each of the note's tags in turn, iterating over the very
      list the removals shrink: step `i` reads position `i` of the current
      list, so every second tag is skipped. */
  function DeleteWalk(st: TagState, ts: Timestamp, i: nat): Step
    decreases |st.tags| - i
  {
    if i >= |st.tags| then Step(st, None)
    else
      var s := RemoveTag(st, st.tags[i], ts);
      if s.err.Some? then s else DeleteWalk(s.state, ts, i + 1)
  }

  /** The removal of each tag of `list` that `keep` does not hold, stopping
      at the first error; `list` is a copy the removals do not touch. */
  function RemoveListed(st: TagState, list: seq<string>, keep: seq<string>, ts: Timestamp, i: nat): Step
    requires i <= |list|
    decreases |list| - i
  {
    if i == |list| then Step(st, None)
    else if list[i] in keep then RemoveListed(st, list, keep, ts, i + 1)
    else
      var s := RemoveTag(st, list[i], ts);
      if s.err.Some? then s else RemoveListed(s.state, list, keep, ts, i + 1)
  }

  /** The addition of each tag of `list` that `skip` does not hold. */
  function AddListed(st: TagState, list: seq<string>, skip: seq<string>, ts: Timestamp, n: Note, i: nat): TagState
    requires i <= |list|
    decreases |list| - i
  {
    if i == |list| then st
    else if list[i] in skip then AddListed(st, list, skip, ts, n, i + 1)
    else AddListed(AddTag(st, list[i], ts, n), list, skip, ts, n, i + 1)
  }

  /** `set_note_tags(note, new_tags)`: remove the old tags (from a copy) that
      are not new, then add the new tags that were not old. */
  function SetTags(st: TagState, newTags: seq<string>, ts: Timestamp, n: Note): Step {
    var removed := RemoveListed(st, st.tags, newTags, ts, 0);
    if removed.err.Some? then removed
    else Step(AddListed(removed.state, newTags, st.tags, ts, n, 0), None)
  }

  // ---------------------------------------------------------------------
  // The index a set of (tag, timestamp) pairs determines

  type Pair = (string, Timestamp)

  /** The pairs (tag, ts) of a timestamp-to-tags map. */
  function PairsOf(tm: map<Timestamp, seq<string>>): set<Pair> {
    set ts, tag | ts in tm && tag in tm[ts] :: (tag, ts)
  }

  /** The pairs of one note's tag list. */
  function TagPairs(tags: seq<string>, ts: Timestamp): set<Pair> {
    set tag | tag in tags :: (tag, ts)
  }

  /** `ix` is exactly the index of the pairs `p`: a tag's bucket holds a
      timestamp exactly when the pair is in `p`, mapped to that timestamp's
      note, and no bucket is empty. */
  ghost predicate Matches(ix: Index, p: set<Pair>, notes: map<Timestamp, Note>) {
    && (forall tag :: tag in ix ==> ix[tag] != map[])
    && (forall tag, ts :: (tag, ts) in p <==> tag in ix && ts in ix[tag])
    && (forall tag, ts :: tag in ix && ts in ix[tag] ==> ts in notes && ix[tag][ts] == notes[ts])
  }

  /** Only one index matches a set of pairs. */
  lemma MatchesUnique(a: Index, b: Index, p: set<Pair>, notes: map<Timestamp, Note>)
    requires Matches(a, p, notes) && Matches(b, p, notes)
    ensures a == b
  {
    forall tag | tag in a ensures tag in b {
      var ts :| ts in a[tag];
      assert (tag, ts) in p;
    }
    forall tag | tag in b ensures tag in a {
      var ts :| ts in b[tag];
      assert (tag, ts) in p;
    }
    forall tag | tag in a ensures a[tag] == b[tag] {
      assert forall ts :: ts in a[tag] ==> ts in b[tag] && a[tag][ts] == notes[ts] == b[tag][ts];
      assert a[tag].Keys == b[tag].Keys by {
        forall ts ensures ts in a[tag] <==> ts in b[tag] {
          assert ts in a[tag] <==> (tag, ts) in p;
        }
      }
    }
  }

  lemma MatchesEmpty(notes: map<Timestamp, Note>)
    ensures Matches(map[], {}, notes)
  {
  }

  /** Adding a pair is `AddEntry` on the index. */
  lemma AddEntryMatches(ix: Index, p: set<Pair>, notes: map<Timestamp, Note>, tag: string, ts: Timestamp)
    requires Matches(ix, p, notes) && ts in notes
    ensures Matches(AddEntry(ix, tag, ts, notes[ts]), p + {(tag, ts)}, notes)
  {
    var r := AddEntry(ix, tag, ts, notes[ts]);
    forall t, u ensures (t, u) in p + {(tag, ts)} <==> t in r && u in r[t] {
      if t == tag && tag in ix {
        assert u in r[t] <==> u in ix[t] || u == ts;
      }
    }
  }

  /** Removing a pair is `DropEntry` on the index. */
  lemma DropEntryMatches(ix: Index, p: set<Pair>, notes: map<Timestamp, Note>, tag: string, ts: Timestamp)
    requires Matches(ix, p, notes) && (tag, ts) in p
    ensures tag in ix && ts in ix[tag]
    ensures Matches(DropEntry(ix, tag, ts), p - {(tag, ts)}, notes)
  {
    var r := DropEntry(ix, tag, ts);
    forall t, u ensures (t, u) in p - {(tag, ts)} <==> t in r && u in r[t] {
      if t == tag {
        if tag in r {
          assert u in r[t] <==> u in ix[t] && u != ts;
        } else {
          assert ix[tag].Keys == {ts};
          assert u in ix[t] ==> u == ts;
        }
      }
    }
  }

  /** The index is consistent with a note's tag list: it is the index of the
      other notes' pairs `others` together with the pairs of `st.tags`. */
  ghost predicate Consistent(st: TagState, others: set<Pair>, notes: map<Timestamp, Note>, ts: Timestamp) {
    && ts in notes
    && (forall q :: q in others ==> q.1 != ts)
    && Matches(st.index, others + TagPairs(st.tags, ts), notes)
  }

  lemma AddTagConsistent(st: TagState, others: set<Pair>, notes: map<Timestamp, Note>, ts: Timestamp, tag: string)
    requires Consistent(st, others, notes, ts)
    ensures Consistent(AddTag(st, tag, ts, notes[ts]), others, notes, ts)
  {
    var p := others + TagPairs(st.tags, ts);
    AddEntryMatches(st.index, p, notes, tag, ts);
    assert TagPairs(st.tags + [tag], ts) == TagPairs(st.tags, ts) + {(tag, ts)};
    assert others + TagPairs(st.tags + [tag], ts) == p + {(tag, ts)};
  }

  /** The pairs of a list after `remove` of a tag that occurred once. */
  lemma RemoveFirstPairs(tags: seq<string>, tag: string, ts: Timestamp)
    requires tag in tags && tag !in RemoveFirst(tags, tag)
    ensures TagPairs(RemoveFirst(tags, tag), ts) == TagPairs(tags, ts) - {(tag, ts)}
  {
    var rest := RemoveFirst(tags, tag);
    RemoveFirstCount(tags, tag);
    forall x ensures x in rest <==> x in tags && x != tag {
      assert multiset(rest)[x] == multiset(tags)[x] - (if x == tag then 1 else 0);
    }
  }

  /** Removing a tag that occurs once in the list succeeds and keeps the
      index consistent. */
  lemma RemoveTagConsistent(st: TagState, others: set<Pair>, notes: map<Timestamp, Note>, ts: Timestamp, tag: string)
    requires Consistent(st, others, notes, ts)
    requires tag in st.tags && tag !in RemoveFirst(st.tags, tag)
    ensures RemoveTag(st, tag, ts).err.None?
    ensures Consistent(RemoveTag(st, tag, ts).state, others, notes, ts)
  {
    var p := others + TagPairs(st.tags, ts);
    assert (tag, ts) in p;
    DropEntryMatches(st.index, p, notes, tag, ts);
    RemoveFirstPairs(st.tags, tag, ts);
    assert others + TagPairs(RemoveFirst(st.tags, tag), ts) == p - {(tag, ts)};
  }

  // ---------------------------------------------------------------------
  // The loops

  lemma KeepStep(list: seq<string>, keep: seq<string>, i: nat)
    requires i < |list|
    ensures Keep(list[..i + 1], keep) == Keep(list[..i], keep) + (if list[i] in keep then [list[i]] else [])
  {
    if i > 0 {
      assert list[..i + 1][1..] == list[1..][..i];
      assert list[..i][1..] == list[1..][..i - 1];
      KeepStep(list[1..], keep, i - 1);
    } else {
      assert list[..1] == [list[0]];
    }
  }

  /** `s.index(x)` finds `x` right after a prefix that does not hold it. */
  lemma {:induction false} FirstIndexAfter(pre: seq<string>, x: string, rest: seq<string>)
    requires x !in pre
    ensures FirstIndex(pre + [x] + rest, x) == |pre|
  {
    if |pre| > 0 {
      assert (pre + [x] + rest)[1..] == pre[1..] + [x] + rest;
      FirstIndexAfter(pre[1..], x, rest);
    }
  }

  /** One removal of the loop over a duplicate-free copy: the tag removed is
      at its only position, right after the kept tags before it. */
  lemma RemoveListedTagStep(tags: seq<string>, list: seq<string>, keep: seq<string>, i: nat)
    requires i < |list| && list[i] !in list[..i] && list[i] !in list[i + 1..] && list[i] !in keep
    requires tags == Keep(list[..i], keep) + list[i..]
    ensures list[i] in tags
    ensures RemoveFirst(tags, list[i]) == Keep(list[..i + 1], keep) + list[i + 1..]
    ensures list[i] !in RemoveFirst(tags, list[i])
  {
    var x, pre, post := list[i], Keep(list[..i], keep), list[i + 1..];
    assert tags == pre + [x] + post by {
      assert list[i..] == [x] + post;
    }
    assert RemoveFirst(tags, x) == Keep(list[..i + 1], keep) + post by {
      RemoveAfter(pre, x, post);
      KeepStep(list, keep, i);
      assert pre + [] == pre;
    }
  }

  /** In a duplicate-free list an element occurs neither before nor after
      its own position. */
  lemma DistinctAt(list: seq<string>, i: nat)
    requires i < |list| && Distinct(list)
    ensures list[i] !in list[..i] && list[i] !in list[i + 1..]
  {
  }

  /** `s.remove(x)` on a list whose first `x` follows `pre`. */
  lemma RemoveAfter(pre: seq<string>, x: string, post: seq<string>)
    requires x !in pre
    ensures RemoveFirst(pre + [x] + post, x) == pre + post
  {
    FirstIndexAfter(pre, x, post);
    var s := pre + [x] + post;
    assert s[..|pre|] == pre && s[|pre| + 1..] == post;
  }

  /** How the removal loop over a copy runs: with a duplicate-free list it
      raises nothing, leaves exactly the listed tags that are kept, and the
      index stays consistent. */
  lemma {:induction false} RemoveListedEffect(st: TagState, list: seq<string>, keep: seq<string>,
                                             others: set<Pair>, notes: map<Timestamp, Note>, ts: Timestamp, i: nat)
    requires i <= |list| && Distinct(list)
    requires st.tags == Keep(list[..i], keep) + list[i..]
    requires Consistent(st, others, notes, ts)
    ensures var r := RemoveListed(st, list, keep, ts, i);
      r.err.None? && r.state.tags == Keep(list, keep) && Consistent(r.state, others, notes, ts)
    decreases |list| - i
  {
    if i == |list| {
      assert list[..i] == list;
    } else if list[i] in keep {
      KeepStep(list, keep, i);
      assert list[i..] == [list[i]] + list[i + 1..];
      RemoveListedEffect(st, list, keep, others, notes, ts, i + 1);
    } else {
      DistinctAt(list, i);
      RemoveListedTagStep(st.tags, list, keep, i);
      RemoveTagConsistent(st, others, notes, ts, list[i]);
      RemoveListedEffect(RemoveTag(st, list[i], ts).state, list, keep, others, notes, ts, i + 1);
    }
  }

  /** The adding loop appends the listed tags that are not skipped, in order. */
  lemma {:induction false} AddListedTags(st: TagState, list: seq<string>, skip: seq<string>, ts: Timestamp, n: Note, i: nat)
    requires i <= |list|
    ensures AddListed(st, list, skip, ts, n, i).tags == st.tags + Omit(list[i..], skip)
    decreases |list| - i
  {
    if i < |list| {
      var x := list[i];
      assert list[i..] == [x] + list[i + 1..];
      if x in skip {
        AddListedTags(st, list, skip, ts, n, i + 1);
      } else {
        AddListedTags(AddTag(st, x, ts, n), list, skip, ts, n, i + 1);
        assert st.tags + [x] + Omit(list[i + 1..], skip) == st.tags + Omit(list[i..], skip);
      }
    }
  }

  /** The adding loop keeps the index consistent. */
  lemma {:induction false} AddListedConsistent(st: TagState, list: seq<string>, skip: seq<string>,
                                              others: set<Pair>, notes: map<Timestamp, Note>, ts: Timestamp, i: nat)
    requires i <= |list|
    requires Consistent(st, others, notes, ts)
    ensures Consistent(AddListed(st, list, skip, ts, notes[ts], i), others, notes, ts)
    decreases |list| - i
  {
    if i < |list| {
      if list[i] in skip {
        AddListedConsistent(st, list, skip, others, notes, ts, i + 1);
      } else {
        AddTagConsistent(st, others, notes, ts, list[i]);
        AddListedConsistent(AddTag(st, list[i], ts, notes[ts]), list, skip, others, notes, ts, i + 1);
      }
    }
  }

  /** `set_note_tags` on a note whose tag list has no duplicates and whose
      index is consistent: no exception, the kept old tags in their old order
      followed by the new ones in theirs, hence exactly the new tags as a set,
      and the index still consistent. */
  lemma SetTagsEffect(st: TagState, newTags: seq<string>, others: set<Pair>, notes: map<Timestamp, Note>, ts: Timestamp)
    requires Distinct(st.tags)
    requires Consistent(st, others, notes, ts)
    ensures var r := SetTags(st, newTags, ts, notes[ts]);
      && r.err.None?
      && r.state.tags == Keep(st.tags, newTags) + Omit(newTags, st.tags)
      && (forall x :: x in r.state.tags <==> x in newTags)
      && Consistent(r.state, others, notes, ts)
  {
    assert st.tags[..0] == [] && st.tags[0..] == st.tags;
    RemoveListedEffect(st, st.tags, newTags, others, notes, ts, 0);
    var removed := RemoveListed(st, st.tags, newTags, ts, 0);
    AddListedTags(removed.state, newTags, st.tags, ts, notes[ts], 0);
    AddListedConsistent(removed.state, newTags, st.tags, others, notes, ts, 0);
    assert newTags[0..] == newTags;
  }

  /** The tag list a fresh note gets from `set_note_tags`: exactly the given
      list, duplicates included, with every tag entered for the note. */
  lemma SetTagsOnFresh(ix: Index, newTags: seq<string>, others: set<Pair>, notes: map<Timestamp, Note>, ts: Timestamp)
    requires Consistent(TagState([], ix), others, notes, ts)
    ensures var r := SetTags(TagState([], ix), newTags, ts, notes[ts]);
      r.err.None? && r.state.tags == newTags && Consistent(r.state, others, notes, ts)
  {
    var st := TagState([], ix);
    assert RemoveListed(st, [], newTags, ts, 0) == Step(st, None);
    AddListedTags(st, newTags, [], ts, notes[ts], 0);
    AddListedConsistent(st, newTags, [], others, notes, ts, 0);
    assert Omit(newTags[0..], []) == newTags by {
      OmitNothing(newTags);
      assert newTags[0..] == newTags;
    }
  }

  lemma {:induction false} OmitNothing(s: seq<string>)
    ensures Omit(s, []) == s
  {
    if |s| > 0 {
      OmitNothing(s[1..]);
      assert [s[0]] + s[1..] == s;
    }
  }

  // ---------------------------------------------------------------------
  // delete_note's loop

  /** No element occurs twice, stated element by element. */
  predicate Unique(s: seq<string>) {
    |s| == 0 || (s[0] !in s[1..] && Unique(s[1..]))
  }

  lemma {:induction false} UniqueIsDistinct(s: seq<string>)
    ensures Unique(s) <==> Distinct(s)
  {
    if |s| > 0 {
      UniqueIsDistinct(s[1..]);
      assert forall j :: 0 <= j < |s[1..]| ==> s[1..][j] == s[j + 1];
    }
  }

  /** One step of `delete_note`'s walk, on the list alone: the tag at
      position `|pre|` occurs only there, its removal leaves `pre + rest[1..]`,
      and that list is still duplicate-free. */
  lemma DeleteStepTags(pre: seq<string>, rest: seq<string>)
    requires Unique(pre + rest) && |rest| >= 1
    ensures rest[0] in pre + rest
    ensures RemoveFirst(pre + rest, rest[0]) == pre + rest[1..]
    ensures rest[0] !in pre + rest[1..]
    ensures Unique(pre + rest[1..])
  {
    UniqueIsDistinct(pre + rest);
    UniqueIsDistinct(pre + rest[1..]);
    var x := rest[0];
    var s, t := pre + rest, pre + rest[1..];
    assert s == pre + [x] + rest[1..];
    assert forall k :: 0 <= k < |pre| ==> pre[k] == s[k];
    assert forall k :: 0 <= k < |t| ==> t[k] == s[if k < |pre| then k else k + 1];
    assert s[|pre|] == x;
    FirstIndexAfter(pre, x, rest[1..]);
  }

  lemma OddsStep(rest: seq<string>)
    requires |rest| >= 2
    ensures Odds(rest) == [rest[1]] + Odds(rest[2..])
  {
    assert rest[1..][1..] == rest[2..];
  }

  /** The list arithmetic of one step of the walk, at its last tag ... */
  lemma WalkShiftLast(pre: seq<string>, rest: seq<string>)
    requires |rest| == 1
    ensures pre + rest[1..] == pre && pre + Odds(rest) == pre
  {
  }

  /** ... and before it, for the list ... */
  lemma WalkShiftTags(pre: seq<string>, rest: seq<string>)
    requires |rest| >= 2
    ensures (pre + [rest[1]]) + rest[2..] == pre + rest[1..]
  {
  }

  /** ... and for the tags it leaves. */
  lemma WalkShift(pre: seq<string>, rest: seq<string>)
    requires |rest| >= 2
    ensures (pre + [rest[1]]) + Odds(rest[2..]) == pre + Odds(rest)
  {
    OddsStep(rest);
  }

  /** One step of the walk: when the tag at position `|pre|` is indexed for
      the note, it is removed without an exception and the walk goes on at
      the next position of the shortened list. */
  lemma DeleteWalkStep(pre: seq<string>, rest: seq<string>, ix: Index, ts: Timestamp)
    requires Unique(pre + rest) && |rest| >= 1
    requires rest[0] in ix && ts in ix[rest[0]]
    ensures var s := RemoveTag(TagState(pre + rest, ix), rest[0], ts);
      && s.err.None?
      && s.state.tags == pre + rest[1..]
      && DeleteWalk(TagState(pre + rest, ix), ts, |pre|) == DeleteWalk(s.state, ts, |pre| + 1)
  {
    DeleteStepTags(pre, rest);
    assert (pre + rest)[|pre|] == rest[0];
  }

  /** The walk of `delete_note` over a duplicate-free tag list: standing at
      position `|pre|` of `pre + rest`, it removes the tags at the even
      positions of `rest` and steps over the odd ones, which stay in the list
      and in the index. */
  lemma {:induction false} DeleteWalkEffect(pre: seq<string>, rest: seq<string>, ix: Index,
                                           others: set<Pair>, notes: map<Timestamp, Note>, ts: Timestamp)
    requires Unique(pre + rest)
    requires Consistent(TagState(pre + rest, ix), others, notes, ts)
    ensures var r := DeleteWalk(TagState(pre + rest, ix), ts, |pre|);
      r.err.None? && r.state.tags == pre + Odds(rest) && Consistent(r.state, others, notes, ts)
    decreases |rest|
  {
    var st := TagState(pre + rest, ix);
    if |rest| == 0 {
      assert pre + rest == pre;
    } else {
      assert (rest[0], ts) in TagPairs(st.tags, ts);
      DeleteWalkStep(pre, rest, ix, ts);
      DeleteStepTags(pre, rest);
      RemoveTagConsistent(st, others, notes, ts, rest[0]);
      var st' := RemoveTag(st, rest[0], ts).state;
      if |rest| == 1 {
        WalkShiftLast(pre, rest);
        assert DeleteWalk(st', ts, |pre| + 1) == Step(st', None);
      } else {
        WalkShiftTags(pre, rest);
        WalkShift(pre, rest);
        var pre' := pre + [rest[1]];
        assert st' == TagState(pre' + rest[2..], st'.index);
        DeleteWalkEffect(pre', rest[2..], st'.index, others, notes, ts);
      }
    }
  }

  lemma {:induction false} KeepNothing(s: seq<string>)
    ensures Keep(s, []) == []
  {
    if |s| > 0 {
      KeepNothing(s[1..]);
    }
  }

  /** `delete_note`'s loop from the start of a duplicate-free list removes
      exactly the tags at even positions; the odd-position tags remain in the
      list and in the index. */
  lemma DeleteWalkFromStart(st: TagState, others: set<Pair>, notes: map<Timestamp, Note>, ts: Timestamp)
    requires Distinct(st.tags)
    requires Consistent(st, others, notes, ts)
    ensures var r := DeleteWalk(st, ts, 0);
      r.err.None? && r.state.tags == Odds(st.tags) && Consistent(r.state, others, notes, ts)
  {
    assert [] + st.tags == st.tags;
    UniqueIsDistinct(st.tags);
    DeleteWalkEffect([], st.tags, st.index, others, notes, ts);
  }

  /** With two or more tags the loop leaves the second tag behind, both in the
      note's list and in its bucket. */
  lemma DeleteWalkLeavesSecondTag(st: TagState, others: set<Pair>, notes: map<Timestamp, Note>, ts: Timestamp)
    requires Distinct(st.tags) && |st.tags| >= 2
    requires Consistent(st, others, notes, ts)
    ensures var r := DeleteWalk(st, ts, 0);
      && st.tags[1] in r.state.tags
      && st.tags[1] in r.state.index && ts in r.state.index[st.tags[1]]
  {
    DeleteWalkFromStart(st, others, notes, ts);
    var r := DeleteWalk(st, ts, 0);
    OddsStep(st.tags);
    assert (st.tags[1], ts) in TagPairs(r.state.tags, ts);
  }

  /** The intended loop, over a copy of the tags, removes every tag: the list
      ends empty and the note has left every bucket. */
  lemma DeleteAllEffect(st: TagState, others: set<Pair>, notes: map<Timestamp, Note>, ts: Timestamp)
    requires Distinct(st.tags)
    requires Consistent(st, others, notes, ts)
    ensures var r := RemoveListed(st, st.tags, [], ts, 0);
      && r.err.None? && r.state.tags == []
      && Matches(r.state.index, others, notes)
  {
    assert st.tags[..0] == [] && st.tags[0..] == st.tags;
    RemoveListedEffect(st, st.tags, [], others, notes, ts, 0);
    var r := RemoveListed(st, st.tags, [], ts, 0);
    KeepNothing(st.tags);
    assert TagPairs([], ts) == {};
    assert others + {} == others;
  }

  // ---------------------------------------------------------------------
  // update_tag_dict's loops

  /** The index with `n` entered under `ts` in the bucket of every tag from
      position `j` on, creating buckets as needed. */
  function EnterAll(ix: Index, tags: seq<string>, ts: Timestamp, n: Note, j: nat): Index
    requires j <= |tags|
    decreases |tags| - j
  {
    if j == |tags| then ix else EnterAll(AddEntry(ix, tags[j], ts, n), tags, ts, n, j + 1)
  }

  /** The outer loop over the notes in dictionary order, from position `k`. */
  function RebuildFrom(ix: Index, order: seq<Timestamp>, tm: map<Timestamp, seq<string>>,
                       notes: map<Timestamp, Note>, k: nat): Index
    requires k <= |order|
    requires forall ts :: ts in order ==> ts in tm && ts in notes
    decreases |order| - k
  {
    if k == |order| then ix
    else RebuildFrom(EnterAll(ix, tm[order[k]], order[k], notes[order[k]], 0), order, tm, notes, k + 1)
  }

  /** The pairs of the notes at positions `k..` of `order`. */
  function PairsFrom(order: seq<Timestamp>, tm: map<Timestamp, seq<string>>, k: nat): set<Pair>
    requires forall ts :: ts in order ==> ts in tm
    decreases |order| - k
  {
    if k >= |order| then {} else TagPairs(tm[order[k]], order[k]) + PairsFrom(order, tm, k + 1)
  }

  lemma {:induction false} PairsFromMembers(order: seq<Timestamp>, tm: map<Timestamp, seq<string>>, k: nat)
    requires k <= |order|
    requires forall ts :: ts in order ==> ts in tm
    ensures forall tag, ts :: (tag, ts) in PairsFrom(order, tm, k) <==> ts in order[k..] && tag in tm[ts]
    decreases |order| - k
  {
    if k < |order| {
      PairsFromMembers(order, tm, k + 1);
      assert order[k..] == [order[k]] + order[k + 1..];
    }
  }

  /** Entering one note's tags adds exactly its pairs. */
  lemma {:induction false} EnterAllMatches(ix: Index, p: set<Pair>, notes: map<Timestamp, Note>,
                                          tags: seq<string>, ts: Timestamp, j: nat)
    requires j <= |tags| && ts in notes
    requires Matches(ix, p, notes)
    ensures Matches(EnterAll(ix, tags, ts, notes[ts], j), p + TagPairs(tags[j..], ts), notes)
    decreases |tags| - j
  {
    if j == |tags| {
      assert TagPairs(tags[j..], ts) == {};
      assert p + {} == p;
    } else {
      AddEntryMatches(ix, p, notes, tags[j], ts);
      EnterAllMatches(AddEntry(ix, tags[j], ts, notes[ts]), p + {(tags[j], ts)}, notes, tags, ts, j + 1);
      TagPairsStep(tags, ts, j);
      assert (p + {(tags[j], ts)}) + TagPairs(tags[j + 1..], ts) == p + TagPairs(tags[j..], ts);
    }
  }

  lemma TagPairsStep(tags: seq<string>, ts: Timestamp, j: nat)
    requires j < |tags|
    ensures TagPairs(tags[j..], ts) == {(tags[j], ts)} + TagPairs(tags[j + 1..], ts)
  {
    assert tags[j..] == [tags[j]] + tags[j + 1..];
  }

  /** The outer loop adds exactly the pairs of the notes still to visit. */
  lemma {:induction false} RebuildFromMatches(ix: Index, p: set<Pair>, order: seq<Timestamp>,
                                             tm: map<Timestamp, seq<string>>, notes: map<Timestamp, Note>, k: nat)
    requires k <= |order|
    requires forall ts :: ts in order ==> ts in tm && ts in notes
    requires Matches(ix, p, notes)
    ensures Matches(RebuildFrom(ix, order, tm, notes, k), p + PairsFrom(order, tm, k), notes)
    decreases |order| - k
  {
    if k == |order| {
      assert p + {} == p;
    } else {
      var ts := order[k];
      EnterAllMatches(ix, p, notes, tm[ts], ts, 0);
      assert tm[ts][0..] == tm[ts];
      var ix' := EnterAll(ix, tm[ts], ts, notes[ts], 0);
      RebuildFromMatches(ix', p + TagPairs(tm[ts], ts), order, tm, notes, k + 1);
      assert (p + TagPairs(tm[ts], ts)) + PairsFrom(order, tm, k + 1) == p + PairsFrom(order, tm, k);
    }
  }

  /** Rebuild is exact: starting from an empty index and visiting every note
      once, `update_tag_dict` leaves the index of all the notes' pairs, with no
      empty bucket, whatever the visiting order. */
  lemma RebuildExact(order: seq<Timestamp>, tm: map<Timestamp, seq<string>>, notes: map<Timestamp, Note>)
    requires forall ts :: ts in order <==> ts in tm
    requires tm.Keys == notes.Keys
    ensures Matches(RebuildFrom(map[], order, tm, notes, 0), PairsOf(tm), notes)
  {
    MatchesEmpty(notes);
    RebuildFromMatches(map[], {}, order, tm, notes, 0);
    PairsFromMembers(order, tm, 0);
    assert order[0..] == order;
    forall q: Pair ensures q in PairsFrom(order, tm, 0) <==> q in PairsOf(tm) {
      var (tag, ts) := q;
      if q in PairsOf(tm) {
        assert ts in tm && tag in tm[ts];
      }
    }
    assert {} + PairsFrom(order, tm, 0) == PairsOf(tm);
  }

  /** The pairs of all notes split into one note's pairs and the others'. */
  lemma PairsOfWith(tm: map<Timestamp, seq<string>>, ts: Timestamp, tags: seq<string>)
    ensures PairsOf(tm[ts := tags]) == PairsOf(tm - {ts}) + TagPairs(tags, ts)
    ensures forall q :: q in PairsOf(tm - {ts}) ==> q.1 != ts
  {
    var m := tm[ts := tags];
    forall q: Pair ensures q in PairsOf(m) <==> q in PairsOf(tm - {ts}) + TagPairs(tags, ts) {
      var (tag, u) := q;
      if q in PairsOf(m) {
        assert u in m && tag in m[u];
      }
      if q in PairsOf(tm - {ts}) {
        assert u in tm - {ts} && tag in (tm - {ts})[u];
      }
    }
  }

  // ---------------------------------------------------------------------
  // From the whole notebook's index to one note's view of it and back

  /** An index exact for all notes is consistent for any one note, with the
      other notes' pairs as the rest. */
  lemma ExactIsConsistent(tm: map<Timestamp, seq<string>>, notes: map<Timestamp, Note>, ix: Index, ts: Timestamp)
    requires ts in tm && ts in notes
    requires Matches(ix, PairsOf(tm), notes)
    ensures Consistent(TagState(tm[ts], ix), PairsOf(tm - {ts}), notes, ts)
  {
    PairsOfWith(tm, ts, tm[ts]);
    assert tm[ts := tm[ts]] == tm;
  }

  /** A note's consistent index, with the other notes' pairs as the rest, is
      exact for all notes once that note's tags are its new ones. */
  lemma ConsistentIsExact(tm: map<Timestamp, seq<string>>, notes: map<Timestamp, Note>, st: TagState, ts: Timestamp)
    requires Consistent(st, PairsOf(tm - {ts}), notes, ts)
    ensures Matches(st.index, PairsOf(tm[ts := st.tags]), notes)
  {
    PairsOfWith(tm, ts, st.tags);
  }

  /** A note that is not yet in the notebook starts with no tags and a
      consistent index once it is entered. */
  lemma FreshConsistent(tm: map<Timestamp, seq<string>>, notes: map<Timestamp, Note>, ix: Index, ts: Timestamp, n: Note)
    requires tm.Keys == notes.Keys && ts !in notes
    requires Matches(ix, PairsOf(tm), notes)
    ensures Consistent(TagState([], ix), PairsOf(tm[ts := []] - {ts}), notes[ts := n], ts)
  {
    assert tm[ts := []] - {ts} == tm;
    assert TagPairs([], ts) == {};
    assert PairsOf(tm) + {} == PairsOf(tm);
  }

  /** An index without pairs for `ts` does not need the note at `ts`. */
  lemma MatchesWithout(ix: Index, p: set<Pair>, notes: map<Timestamp, Note>, ts: Timestamp)
    requires Matches(ix, p, notes)
    requires forall q :: q in p ==> q.1 != ts
    ensures Matches(ix, p, notes - {ts})
  {
    forall tag, u | tag in ix && u in ix[tag] ensures u in notes - {ts} {
      assert (tag, u) in p;
    }
  }

  /** Tag-index consistency under add: adding a tag to one note of an
      exactly indexed notebook leaves the index exact for the new tags. */
  lemma AddKeepsExact(tm: map<Timestamp, seq<string>>, notes: map<Timestamp, Note>, ix: Index, ts: Timestamp, tag: string)
    requires ts in tm && ts in notes
    requires Matches(ix, PairsOf(tm), notes)
    ensures var st := AddTag(TagState(tm[ts], ix), tag, ts, notes[ts]);
      Matches(st.index, PairsOf(tm[ts := st.tags]), notes)
  {
    ExactIsConsistent(tm, notes, ix, ts);
    AddTagConsistent(TagState(tm[ts], ix), PairsOf(tm - {ts}), notes, ts, tag);
    ConsistentIsExact(tm, notes, AddTag(TagState(tm[ts], ix), tag, ts, notes[ts]), ts);
  }

  /** Tag-index consistency under remove: removing a tag one note carries
      once raises nothing and leaves the index exact for the new tags. */
  lemma RemoveKeepsExact(tm: map<Timestamp, seq<string>>, notes: map<Timestamp, Note>, ix: Index, ts: Timestamp, tag: string)
    requires ts in tm && ts in notes
    requires Matches(ix, PairsOf(tm), notes)
    requires multiset(tm[ts])[tag] == 1
    ensures var r := RemoveTag(TagState(tm[ts], ix), tag, ts);
      r.err.None? && Matches(r.state.index, PairsOf(tm[ts := r.state.tags]), notes)
  {
    RemoveFirstCount(tm[ts], tag);
    assert multiset(RemoveFirst(tm[ts], tag))[tag] == 0;
    ExactIsConsistent(tm, notes, ix, ts);
    RemoveTagConsistent(TagState(tm[ts], ix), PairsOf(tm - {ts}), notes, ts, tag);
    ConsistentIsExact(tm, notes, RemoveTag(TagState(tm[ts], ix), tag, ts).state, ts);
  }

  /** `set_note_tags` on one note of an exactly indexed notebook, the note's
      tag list free of duplicates: no exception, the note ends up with exactly
      the new tags as a set, and the index is exact for them. */
  lemma SetTagsKeepsExact(tm: map<Timestamp, seq<string>>, notes: map<Timestamp, Note>, ix: Index,
                          ts: Timestamp, newTags: seq<string>)
    requires ts in tm && ts in notes && Distinct(tm[ts])
    requires Matches(ix, PairsOf(tm), notes)
    ensures var r := SetTags(TagState(tm[ts], ix), newTags, ts, notes[ts]);
      && r.err.None?
      && (forall x :: x in r.state.tags <==> x in newTags)
      && Matches(r.state.index, PairsOf(tm[ts := r.state.tags]), notes)
  {
    ExactIsConsistent(tm, notes, ix, ts);
    SetTagsEffect(TagState(tm[ts], ix), newTags, PairsOf(tm - {ts}), notes, ts);
    ConsistentIsExact(tm, notes, SetTags(TagState(tm[ts], ix), newTags, ts, notes[ts]).state, ts);
  }

  /** `create_note` with fields: a note at a new timestamp gets exactly the
      given tags (duplicates included), raises nothing, and the index stays
      exact once the note is in the notebook. */
  lemma CreateKeepsExact(tm: map<Timestamp, seq<string>>, notes: map<Timestamp, Note>, ix: Index,
                         ts: Timestamp, n: Note, newTags: seq<string>)
    requires tm.Keys == notes.Keys && ts !in notes
    requires Matches(ix, PairsOf(tm), notes)
    ensures var r := SetTags(TagState([], ix), newTags, ts, n);
      && r.err.None? && r.state.tags == newTags
      && Matches(r.state.index, PairsOf(tm[ts := newTags]), notes[ts := n])
  {
    var tm0, ns := tm[ts := []], notes[ts := n];
    FreshConsistent(tm, notes, ix, ts, n);
    FreshSetTags(tm0, ns, ix, ts, newTags);
    assert tm0[ts := newTags] == tm[ts := newTags];
  }

  lemma FreshSetTags(tm0: map<Timestamp, seq<string>>, ns: map<Timestamp, Note>, ix: Index, ts: Timestamp, newTags: seq<string>)
    requires Consistent(TagState([], ix), PairsOf(tm0 - {ts}), ns, ts)
    ensures var r := SetTags(TagState([], ix), newTags, ts, ns[ts]);
      && r.err.None? && r.state.tags == newTags
      && Matches(r.state.index, PairsOf(tm0[ts := newTags]), ns)
  {
    SetTagsOnFresh(ix, newTags, PairsOf(tm0 - {ts}), ns, ts);
    ConsistentIsExact(tm0, ns, SetTags(TagState([], ix), newTags, ts, ns[ts]).state, ts);
  }

  /** `create_note` without fields: a tagless note at a new timestamp leaves
      the index exact. */
  lemma BlankKeepsExact(tm: map<Timestamp, seq<string>>, notes: map<Timestamp, Note>, ix: Index, ts: Timestamp, n: Note)
    requires tm.Keys == notes.Keys && ts !in notes
    requires Matches(ix, PairsOf(tm), notes)
    ensures Matches(ix, PairsOf(tm[ts := []]), notes[ts := n])
  {
    FreshConsistent(tm, notes, ix, ts, n);
    ConsistentIsExact(tm[ts := []], notes[ts := n], TagState([], ix), ts);
    assert tm[ts := []][ts := []] == tm[ts := []];
  }

  /** The adding loop never takes an entry out of the index. */
  lemma {:induction false} AddListedKeeps(st: TagState, list: seq<string>, skip: seq<string>, ts: Timestamp, n: Note,
                                         i: nat, tag: string, u: Timestamp)
    requires i <= |list| && tag in st.index && u in st.index[tag]
    ensures var r := AddListed(st, list, skip, ts, n, i); tag in r.index && u in r.index[tag]
    decreases |list| - i
  {
    if i < |list| {
      if list[i] in skip {
        AddListedKeeps(st, list, skip, ts, n, i + 1, tag, u);
      } else {
        AddListedKeeps(AddTag(st, list[i], ts, n), list, skip, ts, n, i + 1, tag, u);
      }
    }
  }

  /** `create_note` with fields at a timestamp the notebook already holds:
      the new note's tags are set from an empty list, so a tag of the
      replaced note that the new one lacks keeps its entry, and the index no
      longer matches the notebook with the new note in place. */
  lemma CreateOverExistingLeavesIndexStale(tm: map<Timestamp, seq<string>>, notes: map<Timestamp, Note>, ix: Index,
                                           ts: Timestamp, n: Note, newTags: seq<string>, tag: string)
    requires tm.Keys == notes.Keys && ts in notes
    requires Matches(ix, PairsOf(tm), notes)
    requires tag in tm[ts] && tag !in newTags
    ensures var r := SetTags(TagState([], ix), newTags, ts, n);
      r.err.None? && !Matches(r.state.index, PairsOf(tm[ts := newTags]), notes[ts := n])
  {
    var st := TagState([], ix);
    assert (tag, ts) in PairsOf(tm);
    assert RemoveListed(st, [], newTags, ts, 0) == Step(st, None);
    AddListedKeeps(st, newTags, [], ts, n, 0, tag, ts);
    assert (tag, ts) !in PairsOf(tm[ts := newTags]);
  }

  /** `delete_note` as written, on a note with two or more distinct tags
      in an exactly indexed notebook: once the note has left the notebook,
      the index still lists it under its second tag, so it no longer matches
      the remaining notes. */
  lemma DeleteLeavesIndexStale(tm: map<Timestamp, seq<string>>, notes: map<Timestamp, Note>, ix: Index, ts: Timestamp)
    requires ts in tm && ts in notes && Distinct(tm[ts]) && |tm[ts]| >= 2
    requires Matches(ix, PairsOf(tm), notes)
    ensures var r := DeleteWalk(TagState(tm[ts], ix), ts, 0);
      !Matches(r.state.index, PairsOf(tm - {ts}), notes - {ts})
  {
    ExactIsConsistent(tm, notes, ix, ts);
    DeleteWalkLeavesSecondTag(TagState(tm[ts], ix), PairsOf(tm - {ts}), notes, ts);
  }

  /** The intended `delete_note`, removing the tags of a copy of the list:
      no exception, no tags left, and the index exactly matches the
      remaining notes. */
  lemma DeleteFixedKeepsExact(tm: map<Timestamp, seq<string>>, notes: map<Timestamp, Note>, ix: Index, ts: Timestamp)
    requires ts in tm && ts in notes && Distinct(tm[ts])
    requires Matches(ix, PairsOf(tm), notes)
    ensures var r := RemoveListed(TagState(tm[ts], ix), tm[ts], [], ts, 0);
      r.err.None? && r.state.tags == [] && Matches(r.state.index, PairsOf(tm - {ts}), notes - {ts})
  {
    ExactIsConsistent(tm, notes, ix, ts);
    DeleteAllEffect(TagState(tm[ts], ix), PairsOf(tm - {ts}), notes, ts);
    var r := RemoveListed(TagState(tm[ts], ix), tm[ts], [], ts, 0);
    MatchesWithout(r.state.index, PairsOf(tm - {ts}), notes, ts);
  }

  /** `set_note_tags` on a tagless note leaves exactly the given tags and raises nothing. */
  lemma SetTagsFreshTags(ix: Index, newTags: seq<string>, ts: Timestamp, n: Note)
    ensures var r := SetTags(TagState([], ix), newTags, ts, n); r.err.None? && r.state.tags == newTags
  {
    var st := TagState([], ix);
    assert RemoveListed(st, [], newTags, ts, 0) == Step(st, None);
    AddListedTags(st, newTags, [], ts, n, 0);
    OmitNothing(newTags);
    assert newTags[0..] == newTags;
  }
}
