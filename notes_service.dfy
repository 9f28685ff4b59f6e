/**
 * `NotesService`: the in-memory list of notes with its add, find, update,
 * delete and tag/text search.  Saving to the store after each change is
 * outside the model; the notes the store loads are the constructor's
 * argument.
 */
module NoteBook {
  import opened Options
  import opened Errors
  import opened Strings
  import opened Seqs
  import opened NoteModel

  /** The test `find` applies to each note. */
  function NoteIdIs(id: Id): Note -> bool {
    (n: Note) => n.id == id
  }

  /** Some query tag equals some tag of the note, both in lower case: the
      set intersection of `find_by_tags` is not empty. */
  predicate SharesTag(tags: seq<string>, n: Note) {
    exists i, j :: 0 <= i < |tags| && 0 <= j < |n.tags| && Lower(tags[i]) == TagLower(n.tags[j])
  }

  /** The lower-cased query text occurs in the lower-cased note text. */
  predicate HasText(text: string, n: Note) {
    Contains(TextLower(n.text), Lower(text))
  }

  /** The tag step of `find_by_tags`; an empty tag list keeps every note. */
  function TagStage(tags: seq<string>): Note -> bool {
    (n: Note) => tags == [] || SharesTag(tags, n)
  }

  /** The text step of `find_by_tags`; an empty text keeps every note. */
  function TextStage(text: string): Note -> bool {
    (n: Note) => text == "" || HasText(text, n)
  }

  /** What `find_by_tags` keeps: both steps pass. */
  function TagsAndText(tags: seq<string>, text: string): Note -> bool {
    Both(TagStage(tags), TextStage(text))
  }

  /** With neither tags nor text every note is returned. */
  lemma NoFilterKeepsAll(notes: seq<Note>)
    ensures Filter(notes, TagsAndText([], "")) == notes
  {
    FilterAll(notes, TagsAndText([], ""));
  }

  /** After `add` of a note whose id is new, `find` reaches it at the end. */
  lemma AddedIsFound(notes: seq<Note>, n: Note)
    requires forall j :: 0 <= j < |notes| ==> notes[j].id != n.id
    ensures FirstIndex(notes + [n], NoteIdIs(n.id)) == Some(|notes|)
  {
    FirstIndexSkip(notes, [n], NoteIdIs(n.id));
  }

  /** Rewriting a note in place keeps every note's position for `find`
      because the id stays. */
  lemma UpdateKeepsPositions(notes: seq<Note>, k: nat, n: Note, id: Id)
    requires k < |notes| && n.id == notes[k].id
    ensures FirstIndex(notes[k := n], NoteIdIs(id)) == FirstIndex(notes, NoteIdIs(id))
  {
    var s := notes[k := n];
    match FirstIndex(notes, NoteIdIs(id))
    case None =>
      FirstIndexNone(s, NoteIdIs(id));
    case Some(i) =>
      FirstIndexAt(s, NoteIdIs(id), i);
  }

  /** `delete` removes only the first note with the id: `find` then reaches
      the next note with that id, if there is one. */
  lemma DeleteThenFind(notes: seq<Note>, k: nat, id: Id)
    requires FirstIndex(notes, NoteIdIs(id)) == Some(k)
    ensures FirstIndex(notes[k + 1..], NoteIdIs(id)).None? ==>
      FirstIndex(notes[..k] + notes[k + 1..], NoteIdIs(id)).None?
    ensures FirstIndex(notes[k + 1..], NoteIdIs(id)).Some? ==>
      FirstIndex(notes[..k] + notes[k + 1..], NoteIdIs(id)) ==
      Some(k + FirstIndex(notes[k + 1..], NoteIdIs(id)).value)
  {
    FirstIndexSkip(notes[..k], notes[k + 1..], NoteIdIs(id));
  }

  class NotesService {
    var notes: seq<Note>

    /** `__init__`: the list the store's `load` returns. */
    constructor(loaded: seq<Note>)
      ensures notes == loaded
    {
      notes := loaded;
    }

    /** `get_all`. */
    method GetAll() returns (r: seq<Note>)
      ensures r == notes
    {
      r := notes;
    }

    /** `add`: append and hand the note back. */
    method Add(n: Note) returns (r: Note)
      modifies this
      ensures notes == old(notes) + [n] && r == n
    {
      notes := notes + [n];
      r := n;
    }

    /** `find`: the first note with that id, or nothing. */
    method Find(id: Id) returns (r: Option<Note>)
      ensures FirstIndex(notes, NoteIdIs(id)).None? ==> r.None?
      ensures FirstIndex(notes, NoteIdIs(id)).Some? ==> r == Some(notes[FirstIndex(notes, NoteIdIs(id)).value])
    {
      var k := IndexOfId(id);
      if k.Some? {
        r := Some(notes[k.value]);
      } else {
        r := None;
      }
    }

    /** The loop of `find`, giving the position of the note it returns. */
    method IndexOfId(id: Id) returns (r: Option<nat>)
      ensures r == FirstIndex(notes, NoteIdIs(id))
    {
      for i := 0 to |notes|
        invariant forall j :: 0 <= j < i ==> notes[j].id != id
      {
        if notes[i].id == id {
          FirstIndexAt(notes, NoteIdIs(id), i);
          return Some(i);
        }
      }
      FirstIndexNone(notes, NoteIdIs(id));
      return None;
    }

    /** `update`: a missing note is an error; otherwise the given text and
        tags replace the note's own, and the id stays. */
    method Update(id: Id, text: Option<Text>, tags: Option<seq<Tag>>) returns (r: Result<Note>)
      modifies this
      ensures FirstIndex(old(notes), NoteIdIs(id)).None? ==>
        r == Err(NoteNotFound(id)) && notes == old(notes)
      ensures FirstIndex(old(notes), NoteIdIs(id)).Some? ==>
        var k := FirstIndex(old(notes), NoteIdIs(id)).value;
        var n := old(notes)[k];
        && r == Ok(Note(n.id, text.GetOr(n.text), tags.GetOr(n.tags)))
        && notes == old(notes)[k := r.value]
    {
      var k := IndexOfId(id);
      if k.None? {
        return Err(NoteNotFound(id));
      }
      var n := notes[k.value];
      n := n.(text := text.GetOr(n.text));
      n := n.(tags := tags.GetOr(n.tags));
      notes := notes[k.value := n];
      return Ok(n);
    }

    /** `delete`: a missing note is an error; otherwise the first note with
        that id leaves the list. */
    method Delete(id: Id) returns (r: Result<bool>)
      modifies this
      ensures FirstIndex(old(notes), NoteIdIs(id)).None? ==>
        r == Err(NoteNotFound(id)) && notes == old(notes)
      ensures FirstIndex(old(notes), NoteIdIs(id)).Some? ==>
        var k := FirstIndex(old(notes), NoteIdIs(id)).value;
        r == Ok(true) && notes == old(notes)[..k] + old(notes)[k + 1..]
      ensures |notes| == |old(notes)| - (if r.Ok? then 1 else 0)
    {
      var k := IndexOfId(id);
      if k.None? {
        return Err(NoteNotFound(id));
      }
      notes := notes[..k.value] + notes[k.value + 1..];
      return Ok(true);
    }

    /** `find_by_tags`: the notes that share a tag with `tags` (when any are
        given) and whose text contains `text` (when it is not empty), in
        their order. */
    method FindByTags(tags: seq<string>, text: string) returns (results: seq<Note>)
      ensures results == Filter(notes, TagsAndText(tags, text))
      ensures forall n :: n in results <==> n in notes && TagsAndText(tags, text)(n)
      ensures IsSubsequence(results, notes)
    {
      var tagged := notes;
      if tags != [] {
        tagged := Filter(notes, TagStage(tags));
      } else {
        FilterAll(notes, TagStage(tags));
      }
      results := tagged;
      if text != "" {
        results := Filter(tagged, TextStage(text));
      } else {
        FilterAll(tagged, TextStage(text));
      }
      FilterFilter(notes, TagStage(tags), TextStage(text));
      FilterMembers(notes, TagsAndText(tags, text));
      FilterIsSubsequence(notes, TagsAndText(tags, text));
    }
  }
}
