/** The per-file rewrite of `save_notes_to_file`: a partition file is a list
    of lines; a batch of notes is written into it, either sequentially into a
    new file or, for an existing file, by blanking the slots of deleted notes,
    appending new notes, overwriting the slots of the others and then
    compacting the blanked slots away. */
module FileStore {
  import opened Common
  import opened Notes

  /** The file system: the lines of each existing file. */
  type Files = map<FileId, seq<string>>

  /** What the rewrite reads of a note: where it was written, its line
      (None when it has no text) and its tombstone flag. */
  datatype View = View(file: Option<FileId>, fileLine: Option<nat>, line: Option<string>, deleted: bool)

  function ViewOf(n: Note): View
    reads n
  {
    View(n.file, n.fileLine, n.Serialise(), n.deleted)
  }

  function Views(ns: seq<Note>): (r: seq<View>)
    reads set n | n in ns
    ensures |r| == |ns| && forall j :: 0 <= j < |ns| ==> r[j] == ViewOf(ns[j])
  {
    seq(|ns|, j requires 0 <= j < |ns| reads set n | n in ns => ViewOf(ns[j]))
  }

  function FileLines(vs: seq<View>): (r: seq<Option<nat>>)
    ensures |r| == |vs| && forall j :: 0 <= j < |vs| ==> r[j] == vs[j].fileLine
  {
    seq(|vs|, j requires 0 <= j < |vs| => vs[j].fileLine)
  }

  /** A slot of the line list being rebuilt: a line, or the `None` that marks
      a deleted note's line. */
  datatype Slot = Line(text: string) | Gone

  function Slots(lines: seq<string>): (r: seq<Slot>)
    ensures |r| == |lines| && forall k :: 0 <= k < |lines| ==> r[k] == Line(lines[k])
  {
    seq(|lines|, k requires 0 <= k < |lines| => Line(lines[k]))
  }

  // ---------------------------------------------------------------------
  // Compaction

  /** The slots that are lines, in their order. */
  function Compacted(slots: seq<Slot>): (r: seq<Slot>)
    ensures forall k :: 0 <= k < |r| ==> r[k].Line?
    ensures |r| <= |slots|
  {
    if |slots| == 0 then []
    else if slots[0].Gone? then Compacted(slots[1..])
    else [slots[0]] + Compacted(slots[1..])
  }

  /** The number of lines before position `k`: where the line at `k` lands. */
  function NewIndex(slots: seq<Slot>, k: nat): nat
    requires k <= |slots|
  {
    if k == 0 then 0 else NewIndex(slots, k - 1) + (if slots[k - 1].Line? then 1 else 0)
  }

  lemma {:induction false} CompactedLength(slots: seq<Slot>)
    ensures |Compacted(slots)| == NewIndex(slots, |slots|)
  {
    if |slots| > 0 {
      CompactedLength(slots[1..]);
      NewIndexShift(slots, |slots|);
    }
  }

  /** Counting over `slots[1..]` is counting over `slots` less the first slot. */
  lemma {:induction false} NewIndexShift(slots: seq<Slot>, k: nat)
    requires 1 <= k <= |slots|
    ensures NewIndex(slots, k) == (if slots[0].Line? then 1 else 0) + NewIndex(slots[1..], k - 1)
  {
    if k > 1 {
      NewIndexShift(slots, k - 1);
      assert slots[1..][k - 2] == slots[k - 1];
    }
  }

  /** Compaction keeps every line and its relative order: the line at `k`
      is at `NewIndex(slots, k)` afterwards, and later lines land later. */
  lemma {:induction false} CompactedAt(slots: seq<Slot>, k: nat)
    requires k < |slots| && slots[k].Line?
    ensures NewIndex(slots, k) < |Compacted(slots)|
    ensures Compacted(slots)[NewIndex(slots, k)] == slots[k]
  {
    NewIndexShift(slots, k + 1);
    if k == 0 {
    } else {
      CompactedAt(slots[1..], k - 1);
      NewIndexShift(slots, k);
      assert slots[1..][k - 1] == slots[k];
    }
  }

  lemma {:induction false} NewIndexMonotone(slots: seq<Slot>, j: nat, k: nat)
    requires j < k <= |slots| && slots[j].Line?
    ensures NewIndex(slots, j) < NewIndex(slots, k)
    decreases k
  {
    if k > j + 1 {
      NewIndexMonotone(slots, j, k - 1);
    }
  }

  /** Every slot that remains after compaction was a line of `slots`. */
  lemma {:induction false} CompactedFrom(slots: seq<Slot>, x: Slot)
    requires x in Compacted(slots)
    ensures x in slots && x.Line?
  {
    if slots[0].Gone? || x != slots[0] {
      CompactedFrom(slots[1..], x);
    }
  }

  /** The compaction loop: a blank slot is removed where it stands, and the
      index moves on only past a line. */
  method Compact(slots: seq<Slot>) returns (lines: seq<Slot>)
    ensures lines == Compacted(slots)
  {
    lines := slots;
    var i := 0;
    while i < |lines|
      invariant i <= |lines|
      invariant lines[..i] + Compacted(lines[i..]) == Compacted(slots)
      invariant forall k :: 0 <= k < i ==> lines[k].Line?
      decreases |lines| - i
    {
      if lines[i].Gone? {
        ghost var prev := lines;
        assert prev[i..][1..] == prev[i + 1..];
        lines := lines[..i] + lines[i + 1..];
        assert lines[..i] == prev[..i] && lines[i..] == prev[i + 1..];
      } else {
        assert lines[i..][1..] == lines[i + 1..];
        assert lines[..i + 1] == lines[..i] + [lines[i]];
        i := i + 1;
      }
    }
    assert lines[i..] == [];
    assert lines[..i] == lines;
  }

  // ---------------------------------------------------------------------
  // The rewrite

  /** The state of the marking loop over an existing file's lines: the
      slots, every note's `file_line`, and the exception raised, if any. */
  datatype Pass = Pass(slots: seq<Slot>, fileLines: seq<Option<nat>>, err: Option<PyError>)

  /** A note that is appended: not deleted and never written. */
  predicate IsNew(v: View) {
    !v.deleted && v.fileLine.None?
  }

  /** What one note of the loop does: the slots afterwards, the line number
      it is given (appended notes only) and the exception raised, if any. */
  datatype Mark = Mark(slots: seq<Slot>, numbered: Option<nat>, err: Option<PyError>)

  /** One note of the loop over an existing file's slots. A deleted note
      blanks its slot (TypeError without a line number, IndexError past the
      end); a note without a line number gets the current length as its line
      number and is appended (TypeError when it has no text); any other note
      overwrites its slot (TypeError when it has no text, IndexError past the
      end). */
  function MarkOne(v: View, slots: seq<Slot>): (m: Mark)
    ensures m.numbered.Some? <==> IsNew(v)
    ensures m.err.None? ==> |m.slots| == |slots| + (if IsNew(v) then 1 else 0)
  {
    if v.deleted then
      if v.fileLine.None? then Mark(slots, None, Some(TypeError))
      else if v.fileLine.value >= |slots| then Mark(slots, None, Some(IndexError))
      else Mark(slots[v.fileLine.value := Gone], None, None)
    else if v.fileLine.None? then
      if v.line.None? then Mark(slots, Some(|slots|), Some(TypeError))
      else Mark(slots + [Line(v.line.value)], Some(|slots|), None)
    else if v.line.None? then Mark(slots, None, Some(TypeError))
    else if v.fileLine.value >= |slots| then Mark(slots, None, Some(IndexError))
    else Mark(slots[v.fileLine.value := Line(v.line.value)], None, None)
  }

  /** The loop over the batch from note `i` on, stopping at the first exception. */
  function MarkFrom(vs: seq<View>, i: nat, slots: seq<Slot>, fls: seq<Option<nat>>): (r: Pass)
    requires i <= |vs| && |fls| == |vs|
    ensures |r.fileLines| == |vs|
    decreases |vs| - i
  {
    if i == |vs| then Pass(slots, fls, None)
    else
      var m := MarkOne(vs[i], slots);
      var fls' := if m.numbered.Some? then fls[i := m.numbered] else fls;
      if m.err.Some? then Pass(m.slots, fls', m.err)
      else MarkFrom(vs, i + 1, m.slots, fls')
  }

  /** The lines written to a new file, every note's `file_line`, and the
      exception raised, if any. */
  datatype Written = Written(lines: seq<string>, fileLines: seq<Option<nat>>, err: Option<PyError>)

  /** The loop that writes a new file from note `i` on: note `i` gets line
      number `i` before it is serialised, and a note without text raises
      TypeError with the earlier lines already written. */
  function FreshFrom(vs: seq<View>, i: nat, lines: seq<string>, fls: seq<Option<nat>>): (r: Written)
    requires i <= |vs| && |fls| == |vs|
    ensures |r.fileLines| == |vs|
    decreases |vs| - i
  {
    if i == |vs| then Written(lines, fls, None)
    else
      var fls' := fls[i := Some(i)];
      if vs[i].line.None? then Written(lines, fls', Some(TypeError))
      else FreshFrom(vs, i + 1, lines + [vs[i].line.value], fls')
  }

  /** The files after the call, every note's `file_line`, and the exception
      raised, if any. */
  datatype Outcome = Outcome(files: Files, fileLines: seq<Option<nat>>, err: Option<PyError>)

  /** `save_notes_to_file(file, notes)` on the views of the batch. A new file
      is created at once and holds what was written before any exception. An
      existing file is left as it was when the loop raises; otherwise its
      compacted lines are written to the file of the last note of the batch,
      which raises UnboundLocalError for an empty batch and TypeError when
      that note has no file. */
  function Rewrite(file: FileId, fs: Files, vs: seq<View>): (r: Outcome)
    ensures |r.fileLines| == |vs|
  {
    if file !in fs then
      var w := FreshFrom(vs, 0, [], FileLines(vs));
      Outcome(fs[file := w.lines], w.fileLines, w.err)
    else
      var p := MarkFrom(vs, 0, Slots(fs[file]), FileLines(vs));
      if p.err.Some? then Outcome(fs, p.fileLines, p.err)
      else if |vs| == 0 then Outcome(fs, p.fileLines, Some(UnboundLocalError))
      else if vs[|vs| - 1].file.None? then Outcome(fs, p.fileLines, Some(TypeError))
      else Outcome(fs[vs[|vs| - 1].file.value := Texts(Compacted(p.slots))], p.fileLines, None)
  }

  function Texts(slots: seq<Slot>): (r: seq<string>)
    requires forall k :: 0 <= k < |slots| ==> slots[k].Line?
    ensures |r| == |slots| && forall k :: 0 <= k < |slots| ==> r[k] == slots[k].text
  {
    seq(|slots|, k requires 0 <= k < |slots| && slots[k].Line? => slots[k].text)
  }

  // ---------------------------------------------------------------------
  // What the rewrite of a new file does

  /** Writing a new file from note `i` on: the lines written so far are kept,
      each further note's line follows in batch order until the first note
      without text, which raises TypeError; every note up to and including
      that one gets its position as its line number. */
  lemma {:induction false} FreshFromEffect(vs: seq<View>, i: nat, lines: seq<string>, fls: seq<Option<nat>>)
    requires i <= |vs| && |fls| == |vs| && |lines| == i
    ensures var w := FreshFrom(vs, i, lines, fls);
      && i <= |w.lines| <= |vs|
      && w.lines[..i] == lines
      && (forall k :: i <= k < |w.lines| ==> vs[k].line.Some? && w.lines[k] == vs[k].line.value)
      && (w.err.None? <==> |w.lines| == |vs|)
      && (w.err.Some? ==> w.err == Some(TypeError) && vs[|w.lines|].line.None?)
      && (forall j :: 0 <= j < |vs| ==> w.fileLines[j] == if i <= j <= |w.lines| then Some(j) else fls[j])
    decreases |vs| - i
  {
    if i < |vs| && vs[i].line.Some? {
      FreshFromEffect(vs, i + 1, lines + [vs[i].line.value], fls[i := Some(i)]);
      var w := FreshFrom(vs, i + 1, lines + [vs[i].line.value], fls[i := Some(i)]);
      assert w.lines[..i] == w.lines[..i + 1][..i];
    }
  }

  /** `save_notes_to_file` on a file that does not exist: the file is created
      and nothing else changes; it holds the batch's lines in batch order, up
      to the first note without text, which raises TypeError; note `k` gets
      line number `k`. */
  lemma NewFileRewrite(file: FileId, fs: Files, vs: seq<View>)
    requires file !in fs
    ensures var r := Rewrite(file, fs, vs);
      && r.files.Keys == fs.Keys + {file}
      && (forall f :: f in fs ==> r.files[f] == fs[f])
      && |r.files[file]| <= |vs|
      && (forall k :: 0 <= k < |r.files[file]| ==> vs[k].line == Some(r.files[file][k]))
      && (r.err.None? <==> forall k :: 0 <= k < |vs| ==> vs[k].line.Some?)
      && (r.err.None? ==> |r.files[file]| == |vs|)
      && (r.err.Some? ==> r.err == Some(TypeError) && vs[|r.files[file]|].line.None?)
      && (forall k :: 0 <= k < |vs| ==> r.fileLines[k] == if k <= |r.files[file]| then Some(k) else vs[k].fileLine)
  {
    FreshFromEffect(vs, 0, [], FileLines(vs));
  }

  // ---------------------------------------------------------------------
  // What the rewrite of an existing file does

  /** The number of notes before position `i` that are appended. */
  function Appended(vs: seq<View>, i: nat): nat
    requires i <= |vs|
  {
    if i == 0 then 0 else Appended(vs, i - 1) + (if IsNew(vs[i - 1]) then 1 else 0)
  }

  lemma {:induction false} AppendedGrows(vs: seq<View>, j: nat, i: nat)
    requires j < i <= |vs| && IsNew(vs[j])
    ensures Appended(vs, j) < Appended(vs, i)
    decreases i
  {
    if i > j + 1 {
      AppendedGrows(vs, j, i - 1);
    }
  }

  /** The slot note `i` writes in a file of `n0` lines: its own line, or the
      next free line at the end for an appended note. */
  function Target(vs: seq<View>, n0: nat, i: nat): nat
    requires i < |vs|
  {
    if vs[i].fileLine.Some? then vs[i].fileLine.value else n0 + Appended(vs, i)
  }

  /** A batch the rewrite of a file of `n0` lines processes without an
      exception and without two notes writing one slot: deleted notes have a
      line number, the others a text, every line number is within the file
      and no two notes share one. */
  predicate Plain(vs: seq<View>, n0: nat) {
    && (forall i :: 0 <= i < |vs| ==> vs[i].deleted ==> vs[i].fileLine.Some?)
    && (forall i :: 0 <= i < |vs| ==> !vs[i].deleted ==> vs[i].line.Some?)
    && (forall i :: 0 <= i < |vs| ==> vs[i].fileLine.Some? ==> vs[i].fileLine.value < n0)
    && (forall i, j :: 0 <= i < j < |vs| && vs[i].fileLine.Some? && vs[j].fileLine.Some? ==>
          vs[i].fileLine.value != vs[j].fileLine.value)
  }

  lemma TargetsDistinct(vs: seq<View>, n0: nat, j: nat, i: nat)
    requires Plain(vs, n0) && j < i < |vs|
    ensures Target(vs, n0, j) != Target(vs, n0, i)
  {
    if IsNew(vs[j]) && IsNew(vs[i]) {
      AppendedGrows(vs, j, i);
    }
  }

  /** What the slot of a note becomes. */
  function Put(v: View): Slot
    requires !v.deleted ==> v.line.Some?
  {
    if v.deleted then Gone else Line(v.line.value)
  }

  /** Whether one of the first `i` notes writes slot `k`. */
  function Touched(vs: seq<View>, n0: nat, i: nat, k: nat): bool
    requires i <= |vs|
  {
    i > 0 && (Target(vs, n0, i - 1) == k || Touched(vs, n0, i - 1, k))
  }

  /** The marking loop after `i` notes of a plain batch: the list has grown by
      the appended notes, each of those notes has its target slot as line
      number and its slot holds what it put there, and the other slots of the
      file are as they were. */
  ghost predicate MarkedUpTo(vs: seq<View>, s0: seq<Slot>, i: nat, slots: seq<Slot>, fls: seq<Option<nat>>)
    requires i <= |vs| && Plain(vs, |s0|)
  {
    && |slots| == |s0| + Appended(vs, i)
    && |fls| == |vs|
    && (forall j :: 0 <= j < |vs| ==> fls[j] == if j < i then Some(Target(vs, |s0|, j)) else vs[j].fileLine)
    && (forall j :: 0 <= j < i ==> Target(vs, |s0|, j) < |slots| && slots[Target(vs, |s0|, j)] == Put(vs[j]))
    && (forall k :: 0 <= k < |s0| && !Touched(vs, |s0|, i, k) ==> slots[k] == s0[k])
  }

  /** One note of the marking loop over a plain batch. */
  lemma MarkStep(vs: seq<View>, s0: seq<Slot>, i: nat, slots: seq<Slot>, fls: seq<Option<nat>>)
    requires i < |vs| && Plain(vs, |s0|)
    requires MarkedUpTo(vs, s0, i, slots, fls)
    ensures var t := Target(vs, |s0|, i);
      && t <= |slots|
      && (t == |slots| <==> IsNew(vs[i]))
      && var slots' := if t == |slots| then slots + [Put(vs[i])] else slots[t := Put(vs[i])];
         var fls' := fls[i := Some(t)];
         && MarkFrom(vs, i, slots, fls) == MarkFrom(vs, i + 1, slots', fls')
         && MarkedUpTo(vs, s0, i + 1, slots', fls')
  {
    var n0, v, t := |s0|, vs[i], Target(vs, |s0|, i);
    var slots' := if t == |slots| then slots + [Put(v)] else slots[t := Put(v)];
    var fls' := fls[i := Some(t)];
    forall j | 0 <= j < i ensures Target(vs, n0, j) != t {
      TargetsDistinct(vs, n0, j, i);
    }
    assert fls' == fls || v.fileLine.None?;
    forall k | 0 <= k < n0 && !Touched(vs, n0, i + 1, k) ensures slots'[k] == s0[k] {
      assert !Touched(vs, n0, i, k) && t != k;
    }
  }

  /** The marking loop over a plain batch raises nothing and does what the
      batch asks of each slot. */
  lemma {:induction false} MarkFromPlain(vs: seq<View>, s0: seq<Slot>, i: nat, slots: seq<Slot>, fls: seq<Option<nat>>)
    requires i <= |vs| && Plain(vs, |s0|)
    requires MarkedUpTo(vs, s0, i, slots, fls)
    ensures var p := MarkFrom(vs, i, slots, fls);
      p.err.None? && MarkedUpTo(vs, s0, |vs|, p.slots, p.fileLines)
    decreases |vs| - i
  {
    if i < |vs| {
      MarkStep(vs, s0, i, slots, fls);
      var t := Target(vs, |s0|, i);
      var slots' := if t == |slots| then slots + [Put(vs[i])] else slots[t := Put(vs[i])];
      MarkFromPlain(vs, s0, i + 1, slots', fls[i := Some(t)]);
    }
  }

  /** The slots after the marking loop over an existing file. */
  function Marked(file: FileId, fs: Files, vs: seq<View>): Pass
    requires file in fs
  {
    MarkFrom(vs, 0, Slots(fs[file]), FileLines(vs))
  }

  /** `save_notes_to_file` on an existing file and a plain batch whose last
      note belongs to the file: no exception; the file holds the lines of the
      marked slots in their order; a deleted note's line is gone, every other
      note's line is in the file and so is every line no note wrote; and each
      note's line number is its slot before compaction. */
  lemma ExistingFileRewrite(file: FileId, fs: Files, vs: seq<View>)
    requires file in fs && Plain(vs, |fs[file]|)
    requires |vs| > 0 && vs[|vs| - 1].file == Some(file)
    ensures var p, r, n0 := Marked(file, fs, vs), Rewrite(file, fs, vs), |fs[file]|;
      && r.err.None?
      && r.files == fs[file := Texts(Compacted(p.slots))]
      && |p.slots| == n0 + Appended(vs, |vs|)
      && (forall j :: 0 <= j < |vs| ==> r.fileLines[j] == Some(Target(vs, n0, j)) && Target(vs, n0, j) < |p.slots|)
      && (forall j :: 0 <= j < |vs| && vs[j].deleted ==> p.slots[Target(vs, n0, j)] == Gone)
      && (forall j :: 0 <= j < |vs| && !vs[j].deleted ==>
            NewIndex(p.slots, Target(vs, n0, j)) < |r.files[file]|
            && r.files[file][NewIndex(p.slots, Target(vs, n0, j))] == vs[j].line.value)
      && (forall k :: 0 <= k < n0 && !Touched(vs, n0, |vs|, k) ==>
            NewIndex(p.slots, k) < |r.files[file]| && r.files[file][NewIndex(p.slots, k)] == fs[file][k])
  {
    var s0, n0 := Slots(fs[file]), |fs[file]|;
    assert MarkedUpTo(vs, s0, 0, s0, FileLines(vs));
    MarkFromPlain(vs, s0, 0, s0, FileLines(vs));
    var p := Marked(file, fs, vs);
    forall j | 0 <= j < |vs| && !vs[j].deleted
      ensures NewIndex(p.slots, Target(vs, n0, j)) < |Compacted(p.slots)|
      ensures Compacted(p.slots)[NewIndex(p.slots, Target(vs, n0, j))] == Line(vs[j].line.value)
    {
      CompactedAt(p.slots, Target(vs, n0, j));
    }
    forall k | 0 <= k < n0 && !Touched(vs, n0, |vs|, k)
      ensures NewIndex(p.slots, k) < |Compacted(p.slots)|
      ensures Compacted(p.slots)[NewIndex(p.slots, k)] == Line(fs[file][k])
    {
      CompactedAt(p.slots, k);
    }
  }

  /** Compaction keeps the order of the lines it keeps. */
  lemma CompactionKeepsOrder(slots: seq<Slot>, j: nat, k: nat)
    requires j < k < |slots| && slots[j].Line? && slots[k].Line?
    ensures NewIndex(slots, j) < NewIndex(slots, k) < |Compacted(slots)|
    ensures Compacted(slots)[NewIndex(slots, j)] == slots[j] && Compacted(slots)[NewIndex(slots, k)] == slots[k]
  {
    NewIndexMonotone(slots, j, k);
    CompactedAt(slots, j);
    CompactedAt(slots, k);
  }

  /** Line numbers go stale: a note whose slot comes after a compacted-away
      slot keeps a line number past its line in the file. */
  lemma StaleAfterGone(slots: seq<Slot>, g: nat, k: nat)
    requires g < k < |slots| && slots[g].Gone?
    ensures NewIndex(slots, k) < k
  {
    NewIndexBound(slots, g);
    NewIndexBound(slots, k);
    NewIndexSkips(slots, g, k);
  }

  lemma {:induction false} NewIndexBound(slots: seq<Slot>, k: nat)
    requires k <= |slots|
    ensures NewIndex(slots, k) <= k
  {
    if k > 0 {
      NewIndexBound(slots, k - 1);
    }
  }

  /** Past a blank slot at `g` the count of lines lags the position by one more. */
  lemma {:induction false} NewIndexSkips(slots: seq<Slot>, g: nat, k: nat)
    requires g < k <= |slots| && slots[g].Gone?
    ensures NewIndex(slots, k) + g + 1 <= NewIndex(slots, g) + k
    decreases k
  {
    if k > g + 1 {
      NewIndexSkips(slots, g, k - 1);
    }
  }

  // ---------------------------------------------------------------------
  // Stale line numbers, and the renumbering that was evidently intended

  /** A file of three lines; the note on line 0 is deleted and the note on
      line 2 is updated. The file is compacted to two lines but the updated
      note keeps line number 2, so saving it again raises IndexError. */
  lemma StaleLineNumber()
    ensures var f := "notes_1.tsv";
      var fs := map[f := ["a", "b", "c"]];
      var r := Rewrite(f, fs, [View(Some(f), Some(0), Some("a"), true), View(Some(f), Some(2), Some("c2"), false)]);
      && r.err.None?
      && r.files[f] == ["b", "c2"]
      && r.fileLines[1] == Some(2)
      && Rewrite(f, r.files, [View(Some(f), Some(2), Some("c3"), false)]).err == Some(IndexError)
  {
    var f := "notes_1.tsv";
    var fs := map[f := ["a", "b", "c"]];
    var vs := [View(Some(f), Some(0), Some("a"), true), View(Some(f), Some(2), Some("c2"), false)];
    var s0 := Slots(fs[f]);
    assert s0 == [Line("a"), Line("b"), Line("c")];
    assert FileLines(vs) == [Some(0), Some(2)];
    var fls := FileLines(vs);
    var p := MarkFrom(vs, 0, s0, fls);
    assert s0[0 := Gone] == [Gone, Line("b"), Line("c")];
    assert p == MarkFrom(vs, 1, [Gone, Line("b"), Line("c")], fls);
    assert [Gone, Line("b"), Line("c")][2 := Line("c2")] == [Gone, Line("b"), Line("c2")];
    assert p == MarkFrom(vs, 2, [Gone, Line("b"), Line("c2")], fls);
    var r := Rewrite(f, fs, vs);
    assert r.files[f] == ["b", "c2"];
    var again := [View(Some(f), Some(2), Some("c3"), false)];
    assert Slots(r.files[f]) == [Line("b"), Line("c2")];
  }

  /** Each note's line number moved to where its slot lands after compaction. */
  function Renumber(slots: seq<Slot>, fls: seq<Option<nat>>): (r: seq<Option<nat>>)
    ensures |r| == |fls|
  {
    seq(|fls|, j requires 0 <= j < |fls| =>
      if fls[j].Some? && fls[j].value < |slots| && slots[fls[j].value].Line?
      then Some(NewIndex(slots, fls[j].value)) else fls[j])
  }

  /** The rewrite with the line numbers recomputed after compaction. */
  function RewriteRenumbered(file: FileId, fs: Files, vs: seq<View>): (r: Outcome)
    ensures |r.fileLines| == |vs|
  {
    var r := Rewrite(file, fs, vs);
    if file in fs && r.err.None? then Outcome(r.files, Renumber(Marked(file, fs, vs).slots, r.fileLines), None)
    else r
  }

  /** With renumbering, every note that is not deleted ends up with the line
      number of its own line in the file it was written to, for a new file
      and for an existing one. */
  lemma RenumberedPointsHome(file: FileId, fs: Files, vs: seq<View>)
    requires file in fs ==> Plain(vs, |fs[file]|) && |vs| > 0 && vs[|vs| - 1].file == Some(file)
    requires file !in fs ==> forall k :: 0 <= k < |vs| ==> vs[k].line.Some?
    ensures var r := RewriteRenumbered(file, fs, vs);
      && r.err.None?
      && forall j :: 0 <= j < |vs| && !vs[j].deleted ==>
           && r.fileLines[j].Some?
           && r.fileLines[j].value < |r.files[file]|
           && r.files[file][r.fileLines[j].value] == vs[j].line.value
  {
    if file in fs {
      ExistingFileRewrite(file, fs, vs);
      var p := Marked(file, fs, vs);
      var n0 := |fs[file]|;
      forall j | 0 <= j < |vs| && !vs[j].deleted ensures p.slots[Target(vs, n0, j)].Line? {
        MarkFromPlain(vs, Slots(fs[file]), 0, Slots(fs[file]), FileLines(vs));
      }
    } else {
      NewFileRewrite(file, fs, vs);
    }
  }

  /** The first save of the example: the file is compacted to two lines and
      the edited note now sits at line 1. */
  lemma RenumberedFirstSave()
    ensures var f := "notes_1.tsv";
      var r := RewriteRenumbered(f, map[f := ["a", "b", "c"]], [View(Some(f), Some(0), Some("a"), true), View(Some(f), Some(2), Some("c2"), false)]);
      r.fileLines[1] == Some(1) && r.files == map[f := ["b", "c2"]]
  {
    var f := "notes_1.tsv";
    var fs := map[f := ["a", "b", "c"]];
    var vs := [View(Some(f), Some(0), Some("a"), true), View(Some(f), Some(2), Some("c2"), false)];
    assert Slots(fs[f]) == [Line("a"), Line("b"), Line("c")];
    assert FileLines(vs) == [Some(0), Some(2)];
    var fls := FileLines(vs);
    var p := Marked(f, fs, vs);
    var s0 := Slots(fs[f]);
    assert s0[0 := Gone] == [Gone, Line("b"), Line("c")];
    assert p == MarkFrom(vs, 1, [Gone, Line("b"), Line("c")], fls);
    assert [Gone, Line("b"), Line("c")][2 := Line("c2")] == [Gone, Line("b"), Line("c2")];
    assert p == MarkFrom(vs, 2, [Gone, Line("b"), Line("c2")], fls);
    assert NewIndex(p.slots, 2) == 1;
    var r := RewriteRenumbered(f, fs, vs);
    assert r.files[f] == ["b", "c2"];
    assert r.files == map[f := ["b", "c2"]];
  }

  /** The scenario of `StaleLineNumber` with renumbering: the updated note gets
      line number 1 and saving it again rewrites that line. */
  lemma RenumberedSecondSave()
    ensures var f := "notes_1.tsv";
      var fs := map[f := ["a", "b", "c"]];
      var r := RewriteRenumbered(f, fs, [View(Some(f), Some(0), Some("a"), true), View(Some(f), Some(2), Some("c2"), false)]);
      && r.fileLines[1] == Some(1)
      && Rewrite(f, r.files, [View(Some(f), Some(1), Some("c3"), false)]).files[f] == ["b", "c3"]
  {
    var f := "notes_1.tsv";
    RenumberedFirstSave();
    var files := map[f := ["b", "c2"]];
    var again := [View(Some(f), Some(1), Some("c3"), false)];
    assert Slots(files[f]) == [Line("b"), Line("c2")];
    assert FileLines(again) == [Some(1)];
    assert MarkFrom(again, 0, Slots(files[f]), FileLines(again)).slots == [Line("b"), Line("c3")];
    assert Compacted([Line("b"), Line("c3")]) == [Line("b"), Line("c3")];
  }

  // ---------------------------------------------------------------------
  // The method

  /** `save_notes_to_file(file, notes)`: the file system after the call and
      the exception raised, if any; the notes' line numbers are updated in
      place, and the frame leaves every other field as it was. */
  method SaveNotesToFile(file: FileId, notes: seq<Note>, fs: Files) returns (fs': Files, err: Option<PyError>)
    requires Distinct(notes)
    modifies (set n | n in notes)`fileLine
    ensures var r := Rewrite(file, fs, old(Views(notes)));
      && fs' == r.files && err == r.err
      && forall j :: 0 <= j < |notes| ==> notes[j].fileLine == r.fileLines[j]
  {
    if file !in fs {
      var written;
      written, err := WriteNewFile(notes);
      fs' := fs[file := written];
      return;
    }
    var lines;
    lines, err := MarkLines(notes, Slots(fs[file]));
    if err.Some? {
      return fs, err;
    }
    lines := Compact(lines);
    if |notes| == 0 {
      return fs, Some(UnboundLocalError);
    }
    var last := notes[|notes| - 1];
    if last.file.None? {
      return fs, Some(TypeError);
    }
    return fs[last.file.value := Texts(lines)], None;
  }

  /** The loop that writes a new file. */
  method WriteNewFile(notes: seq<Note>) returns (written: seq<string>, err: Option<PyError>)
    requires Distinct(notes)
    modifies (set n | n in notes)`fileLine
    ensures var w := FreshFrom(old(Views(notes)), 0, [], FileLines(old(Views(notes))));
      && written == w.lines && err == w.err
      && forall j :: 0 <= j < |notes| ==> notes[j].fileLine == w.fileLines[j]
  {
    ghost var vs := Views(notes);
    ghost var fls := FileLines(vs);
    written := [];
    var id := 0;
    var k := 0;
    while k < |notes|
      invariant k <= |notes| && id == k && |fls| == |notes|
      invariant FreshFrom(vs, k, written, fls) == FreshFrom(vs, 0, [], FileLines(vs))
      invariant forall j :: 0 <= j < |notes| ==> notes[j].fileLine == fls[j]
    {
      var note := notes[k];
      note.fileLine := Some(id);
      fls := fls[k := Some(id)];
      id := id + 1;
      var line := note.Serialise();
      if line.None? {
        return written, Some(TypeError);
      }
      written := written + [line.value];
      k := k + 1;
    }
    return written, None;
  }

  /** The loop that marks, appends and overwrites the slots of an existing file. */
  method MarkLines(notes: seq<Note>, slots: seq<Slot>) returns (lines: seq<Slot>, err: Option<PyError>)
    requires Distinct(notes)
    modifies (set n | n in notes)`fileLine
    ensures var p := MarkFrom(old(Views(notes)), 0, slots, FileLines(old(Views(notes))));
      && err == p.err && (err.None? ==> lines == p.slots)
      && forall j :: 0 <= j < |notes| ==> notes[j].fileLine == p.fileLines[j]
  {
    ghost var vs := Views(notes);
    ghost var fls := FileLines(vs);
    lines := slots;
    var k := 0;
    while k < |notes|
      invariant k <= |notes| && |fls| == |notes|
      invariant MarkFrom(vs, k, lines, fls) == MarkFrom(vs, 0, slots, FileLines(vs))
      invariant forall j :: 0 <= j < |notes| ==> notes[j].fileLine == fls[j]
      invariant forall j :: k <= j < |notes| ==> ViewOf(notes[j]) == vs[j]
    {
      ghost var m := MarkOne(vs[k], lines);
      lines, err := MarkNote(notes[k], lines);
      if m.numbered.Some? {
        fls := fls[k := m.numbered];
      }
      if err.Some? {
        return;
      }
      k := k + 1;
    }
    return lines, None;
  }

  /** The body of the loop for one note. */
  method MarkNote(note: Note, slots: seq<Slot>) returns (lines: seq<Slot>, err: Option<PyError>)
    modifies note`fileLine
    ensures var m := MarkOne(old(ViewOf(note)), slots);
      && lines == m.slots && err == m.err
      && note.fileLine == (if m.numbered.Some? then m.numbered else old(note.fileLine))
  {
    lines := slots;
    if note.deleted {
      if note.fileLine.None? {
        return lines, Some(TypeError);
      }
      if note.fileLine.value >= |lines| {
        return lines, Some(IndexError);
      }
      lines := lines[note.fileLine.value := Gone];
    } else if note.fileLine.None? {
      note.fileLine := Some(|lines|);
      var line := note.Serialise();
      if line.None? {
        return lines, Some(TypeError);
      }
      lines := lines + [Line(line.value)];
    } else {
      var line := note.Serialise();
      if line.None? {
        return lines, Some(TypeError);
      }
      if note.fileLine.value >= |lines| {
        return lines, Some(IndexError);
      }
      lines := lines[note.fileLine.value := Line(line.value)];
    }
    return lines, None;
  }
}
