/** A note and its one-line text form (`App.Note`). */
module Notes {
  import opened Common
  import opened Text
  import opened Time

  /** A path of a partition file. */
  type FileId = string

  const FieldSeparator: char := '\t'
  const TagSeparator: char := ' '

  /** A note: a timestamp that never changes, mutable text and tags, the
      place it was last written to, and the tombstone flag. */
  class Note {
    const timestamp: Timestamp
    var file: Option<FileId>
    var fileLine: Option<nat>
    var text: Option<string>
    var tags: seq<string>
    var deleted: bool

    /** `Note(timestamp)`: no file, no line, no text, no tags, not deleted. */
    constructor (timestamp: Timestamp)
      ensures this.timestamp == timestamp
      ensures file == None && fileLine == None && text == None
      ensures tags == [] && !deleted
    {
      this.timestamp := timestamp;
      file := None;
      fileLine := None;
      text := None;
      tags := [];
      deleted := false;
    }

    /** `serialise()`: None when the text is missing, where joining the
        fields raises TypeError. */
    function Serialise(): Option<string>
      reads this`text, this`tags
    {
      if text.None? then None else Some(LineOf(timestamp, text.value, tags))
    }
  }

  /** The line for a note's fields: timestamp, text and space-joined tags,
      joined by tabs. */
  function LineOf(t: Timestamp, text: string, tags: seq<string>): string {
    Join([IsoFormat(t), text, Join(tags, TagSeparator)], FieldSeparator)
  }

  /** The dictionary `deserialise` returns. */
  datatype Fields = Fields(file: FileId, fileLine: nat, timestamp: Timestamp, text: string, tags: seq<string>)

  /** A tag the codec carries: non-empty, no tab, no space. */
  predicate WellFormedTag(tag: string) {
    tag != "" && FieldSeparator !in tag && TagSeparator !in tag
  }

  /** `deserialise(file_line, file, data)`: the first tab-separated field is
      the timestamp (ValueError when it does not parse), the second the text,
      the third the tags, split on spaces with empty pieces dropped; fewer
      than three fields raise IndexError and fields after the third are
      ignored. */
  function Deserialise(fileLine: nat, file: FileId, data: string): (r: Result<Fields>)
    ensures r.Ok? ==> r.value.file == file && r.value.fileLine == fileLine
    ensures r.Ok? ==> FieldSeparator !in r.value.text
    ensures r.Ok? ==> forall i :: 0 <= i < |r.value.tags| ==> WellFormedTag(r.value.tags[i])
    ensures |Split(data, FieldSeparator)| < 3 ==> r.Err?
    ensures FromIsoFormat(Split(data, FieldSeparator)[0]).None? <==> r == Err(ValueError)
    ensures FromIsoFormat(Split(data, FieldSeparator)[0]).Some? && |Split(data, FieldSeparator)| < 3 ==> r == Err(IndexError)
    ensures FieldSeparator !in data ==> r.Err?
  {
    var parts := Split(data, FieldSeparator);
    match FromIsoFormat(parts[0])
    case None => Err(ValueError)
    case Some(t) =>
      if |parts| < 3 then Err(IndexError)
      else
        var pieces := Split(parts[2], TagSeparator);
        var tags := NonEmpty(pieces);
        assert forall i :: 0 <= i < |tags| ==> WellFormedTag(tags[i]) by {
          forall i | 0 <= i < |tags| ensures WellFormedTag(tags[i]) {
            var k :| 0 <= k < |pieces| && pieces[k] == tags[i];
            if FieldSeparator in tags[i] {
              SplitPieceWithin(parts[2], TagSeparator, k, FieldSeparator);
            }
          }
        }
        Ok(Fields(file, fileLine, t, parts[1], tags))
  }

  /** Reading a line whose three tab-separated fields are known. */
  lemma DeserialiseThreeFields(fileLine: nat, file: FileId, data: string, t: Timestamp, text: string, tagText: string)
    requires Split(data, FieldSeparator) == [IsoFormat(t), text, tagText]
    ensures Deserialise(fileLine, file, data)
         == Ok(Fields(file, fileLine, t, text, NonEmpty(Split(tagText, TagSeparator))))
  {
    IsoFormatRoundTrip(t);
  }

  /** The three fields of a serialised line read back, the tag field still unsplit. */
  lemma LineFieldsRoundTrip(t: Timestamp, text: string, tags: seq<string>, fileLine: nat, file: FileId)
    requires FieldSeparator !in text
    requires forall i :: 0 <= i < |tags| ==> FieldSeparator !in tags[i]
    ensures Deserialise(fileLine, file, LineOf(t, text, tags))
         == Ok(Fields(file, fileLine, t, text, NonEmpty(Split(Join(tags, TagSeparator), TagSeparator))))
  {
    var joined := Join(tags, TagSeparator);
    var line := LineOf(t, text, tags);
    JoinAvoids(tags, TagSeparator, FieldSeparator);
    SplitJoinThree(IsoFormat(t), text, joined, FieldSeparator);
    DeserialiseThreeFields(fileLine, file, line, t, text, joined);
  }

  /** The codec round trip: a line built from a timestamp, a tab-free text and
      tags without tabs or spaces reads back as the same timestamp and text and
      the non-empty tags, in order. */
  lemma CodecRoundTrip(t: Timestamp, text: string, tags: seq<string>, fileLine: nat, file: FileId)
    requires FieldSeparator !in text
    requires forall i :: 0 <= i < |tags| ==> FieldSeparator !in tags[i] && TagSeparator !in tags[i]
    ensures Deserialise(fileLine, file, LineOf(t, text, tags)) == Ok(Fields(file, fileLine, t, text, NonEmpty(tags)))
  {
    LineFieldsRoundTrip(t, text, tags, fileLine, file);
    TagsRoundTrip(tags);
  }

  /** `serialise` does not escape a tab in the text: the text is cut at its
      first tab, the rest of it is read as the tag field, and the note's own
      tags, now in a fourth field, are ignored. */
  lemma TabInTextSplits(t: Timestamp, a: string, b: string, tags: seq<string>, fileLine: nat, file: FileId)
    requires FieldSeparator !in a && FieldSeparator !in b
    requires forall i :: 0 <= i < |tags| ==> FieldSeparator !in tags[i]
    ensures Deserialise(fileLine, file, LineOf(t, a + [FieldSeparator] + b, tags))
         == Ok(Fields(file, fileLine, t, a, NonEmpty(Split(b, TagSeparator))))
  {
    JoinAvoids(tags, TagSeparator, FieldSeparator);
    SplitInnerSeparator(IsoFormat(t), a, b, Join(tags, TagSeparator), FieldSeparator);
    IsoFormatRoundTrip(t);
  }

  /** The tag field reads back as the non-empty tags. */
  lemma TagsRoundTrip(tags: seq<string>)
    requires forall i :: 0 <= i < |tags| ==> TagSeparator !in tags[i]
    ensures NonEmpty(Split(Join(tags, TagSeparator), TagSeparator)) == NonEmpty(tags)
  {
    if |tags| == 0 {
      assert Split("", TagSeparator) == [""];
    } else {
      SplitJoin(tags, TagSeparator);
    }
  }

  /** For a note with text, serialising and reading back gives exactly its
      timestamp, text and tags when its tags are well formed. */
  lemma NoteRoundTrip(n: Note, fileLine: nat, file: FileId)
    requires n.text.Some? && FieldSeparator !in n.text.value
    requires forall i :: 0 <= i < |n.tags| ==> WellFormedTag(n.tags[i])
    ensures n.Serialise().Some?
    ensures Deserialise(fileLine, file, n.Serialise().value)
         == Ok(Fields(file, fileLine, n.timestamp, n.text.value, n.tags))
  {
    CodecRoundTrip(n.timestamp, n.text.value, n.tags, fileLine, file);
    NonEmptyKeepsAll(n.tags);
  }
}
