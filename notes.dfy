/**
 * The note value model: `Text` (non-blank, trimmed), `Tag` (trimmed) and
 * `Note`, with its dictionary form.  The fresh identifier `uuid4()` would
 * produce is the `freshId` parameter.
 */
module NoteModel {
  import opened Options
  import opened Errors
  import opened Strings

  datatype Text = Text(content: string)

  datatype Tag = Tag(name: string)

  datatype Note = Note(id: Id, text: Text, tags: seq<Tag>)

  /** `Text(content)`: blank content is refused; the trimmed content is kept. */
  function NewText(content: string): (r: Result<Text>)
    ensures r.Ok? <==> !AllSpace(content)
    ensures r.Err? ==> r.error == EmptyValue("text")
    ensures r.Ok? ==> r.value.content != "" && Strip(r.value.content) == r.value.content
    ensures r.Ok? ==> r.value.content == Strip(content)
  {
    StripIdempotent(content);
    if AllSpace(content) then Err(EmptyValue("text")) else Ok(Text(Strip(content)))
  }

  /** `Tag(name)`: the trimmed name; an empty tag is allowed. */
  function NewTag(name: string): (r: Tag)
    ensures Strip(r.name) == r.name
    ensures r.name == "" <==> AllSpace(name)
  {
    StripIdempotent(name);
    Tag(Strip(name))
  }

  /** `Text.lower()`: the content in lower case, no longer and no shorter. */
  function TextLower(t: Text): (r: string)
    ensures |r| == |t.content| && Lower(r) == r
    ensures forall i :: 0 <= i < |r| ==> r[i] == LowerChar(t.content[i])
  {
    LowerIdempotent(t.content);
    Lower(t.content)
  }

  /** `Tag.lower()`. */
  function TagLower(t: Tag): (r: string)
    ensures |r| == |t.name| && Lower(r) == r
    ensures forall i :: 0 <= i < |r| ==> r[i] == LowerChar(t.name[i])
  {
    LowerIdempotent(t.name);
    Lower(t.name)
  }

  /** `Note(text, tags, note_id)`: a supplied id is kept, otherwise the
      fresh one is used; missing tags are an empty list. */
  function NewNote(text: Text, tags: Option<seq<Tag>>, noteId: Option<Id>, freshId: Id): (r: Note)
    ensures r.text == text
    ensures r.id == (if noteId.Some? then noteId.value else freshId)
    ensures tags.Some? ==> r.tags == tags.value
    ensures tags.None? ==> r.tags == []
  {
    Note(noteId.GetOr(freshId), text, tags.GetOr([]))
  }

  /** What the constructors guarantee: trimmed, non-blank text and trimmed
      tag names. */
  predicate WellFormedNote(n: Note) {
    && n.text.content != "" && Strip(n.text.content) == n.text.content
    && forall i :: 0 <= i < |n.tags| ==> Strip(n.tags[i].name) == n.tags[i].name
  }

  /** The dictionary `to_dict` produces and `from_dict` reads; `None` is a
      missing key. */
  datatype NoteRecord = NoteRecord(id: Option<Id>, text: Option<string>, tags: Option<seq<string>>)

  function TagNames(tags: seq<Tag>): (r: seq<string>)
    ensures |r| == |tags|
    ensures forall i :: 0 <= i < |tags| ==> r[i] == tags[i].name
  {
    seq(|tags|, i requires 0 <= i < |tags| => tags[i].name)
  }

  function NewTags(names: seq<string>): (r: seq<Tag>)
    ensures |r| == |names|
    ensures forall i :: 0 <= i < |names| ==> r[i] == NewTag(names[i])
  {
    seq(|names|, i requires 0 <= i < |names| => NewTag(names[i]))
  }

  /** `to_dict`: the id, the text and the tag names in their order. */
  function ToRecord(n: Note): (r: NoteRecord)
    ensures r.id == Some(n.id)
    ensures r.text == Some(n.text.content)
    ensures r.tags.Some? && |r.tags.value| == |n.tags|
    ensures forall i :: 0 <= i < |n.tags| ==> r.tags.value[i] == n.tags[i].name
  {
    NoteRecord(Some(n.id), Some(n.text.content), Some(TagNames(n.tags)))
  }

  /** `from_dict`: the text (missing means `""`) must be non-blank, tags
      are trimmed, a missing id is replaced by the fresh one. */
  function FromRecord(rec: NoteRecord, freshId: Id): (r: Result<Note>)
    ensures r.Ok? <==> rec.text.Some? && !AllSpace(rec.text.value)
    ensures r.Err? ==> r.error == EmptyValue("text")
    ensures r.Ok? ==> WellFormedNote(r.value)
    ensures r.Ok? ==> r.value.id == rec.id.GetOr(freshId)
    ensures r.Ok? ==> r.value.text.content == Strip(rec.text.value)
    ensures r.Ok? ==> |r.value.tags| == |rec.tags.GetOr([])|
    ensures r.Ok? ==> forall i :: 0 <= i < |r.value.tags| ==> r.value.tags[i] == NewTag(rec.tags.GetOr([])[i])
  {
    var text :- NewText(rec.text.GetOr(""));
    Ok(NewNote(text, Some(NewTags(rec.tags.GetOr([]))), rec.id, freshId))
  }

  /** Writing a note out and reading it back gives the same note. */
  lemma NoteRoundTrip(n: Note, freshId: Id)
    requires WellFormedNote(n)
    ensures FromRecord(ToRecord(n), freshId) == Ok(n)
  {
    assert !IsSpace(n.text.content[0]);
    var names := ToRecord(n).tags.value;
    assert NewTags(names) == n.tags;
  }
}
