/**
 * The state of the `App` component, as an object whose handlers update it
 * in place. React's two effects become explicit steps: every change of the
 * draft recomputes the draft's tags, and every assignment to the note list
 * clears the filters.
 */
module App {
  import opened Seqs
  import opened TagEngine
  import opened Notes

  /** `e.keyCode` of the Enter key. */
  const EnterKey := 13

  /** `e.keyCode` of the Backspace key. */
  const BackspaceKey := 8

  /** `prev.slice(0, -1)`: the text without its last character. */
  function DropLast(s: string): string {
    if |s| == 0 then "" else s[..|s| - 1]
  }

  class NoteStore {
    /** The saved notes, in the order they were saved. */
    var notes: seq<Note>
    /** `currentNote`: the text being typed. */
    var draft: string
    /** `tags`: the tags of the text being typed. */
    var draftTags: seq<string>
    /** The selected filter tags. */
    var filters: seq<string>

    /**
     * The draft's tags are those of its text, ids are unique, stored tags
     * are whole tags, and no filter tag is selected twice.
     */
    ghost predicate Valid()
      reads this
    {
      && draftTags == ExtractTags(draft)
      && UniqueIds(notes)
      && AllTagsWellFormed(notes)
      && NoDup(filters)
    }

    /** The component's initial state. */
    constructor ()
      ensures Valid()
      ensures notes == [] && draft == "" && draftTags == [] && filters == []
    {
      notes, draft, draftTags, filters := [], "", [], [];
      NoHashNoTags("");
    }

    /** `setCurrentNote(text)` followed by the effect that recomputes the draft's tags. */
    method SetDraft(text: string)
      requires Valid()
      modifies this
      ensures Valid()
      ensures draft == text && draftTags == ExtractTags(text)
      ensures notes == old(notes) && filters == old(filters)
    {
      draft := text;
      draftTags := ExtractTags(text);
    }

    /** `setNotes(ns)` followed by the effect that clears the filters when the notes change. */
    method SetNotes(ns: seq<Note>)
      requires Valid() && UniqueIds(ns) && AllTagsWellFormed(ns)
      modifies this
      ensures Valid()
      ensures notes == ns && filters == []
      ensures draft == old(draft) && draftTags == old(draftTags)
    {
      notes := ns;
      filters := [];
    }

    /**
     * `handleSaveNote`: an empty draft is ignored; any other draft becomes
     * a new last note with a fresh id and the draft's tags, and the draft
     * is emptied.
     */
    method SaveNote(id: Id, date: Date)
      requires Valid()
      requires draft != "" ==> id !in Ids(notes)
      modifies this
      ensures Valid()
      ensures old(draft) == "" ==>
                notes == old(notes) && draft == old(draft) && draftTags == old(draftTags) &&
                filters == old(filters)
      ensures old(draft) != "" ==>
                notes == old(notes) + [Note(id, date, old(draft), ExtractTags(old(draft)))] &&
                draft == "" && draftTags == [] && filters == []
    {
      if draft != "" {
        var note := Note(id, date, draft, draftTags);
        ExtractTagsOccur(draft);
        var ns := notes + [note];
        forall i, j | 0 <= i < j < |ns| ensures ns[i].id != ns[j].id {
          if j == |notes| {
            assert ns[i] == notes[i] && notes[i].id in Ids(notes);
          } else {
            assert ns[i] == notes[i] && ns[j] == notes[j];
          }
        }
        SetNotes(ns);
        SetDraft("");
        NoHashNoTags("");
      }
    }

    /**
     * `handleNoteInputKeyDown`: Enter saves, Backspace drops the last
     * character of the draft, a key whose value is one character appends
     * it, and every other key changes nothing.
     */
    method KeyDown(keyCode: int, key: string, id: Id, date: Date)
      requires Valid()
      requires keyCode == EnterKey && draft != "" ==> id !in Ids(notes)
      modifies this
      ensures Valid()
      ensures keyCode == EnterKey && old(draft) == "" ==>
                notes == old(notes) && draft == old(draft) && filters == old(filters)
      ensures keyCode == EnterKey && old(draft) != "" ==>
                notes == old(notes) + [Note(id, date, old(draft), ExtractTags(old(draft)))] &&
                draft == "" && draftTags == [] && filters == []
      ensures keyCode != EnterKey ==> notes == old(notes) && filters == old(filters)
      ensures keyCode != EnterKey && keyCode == BackspaceKey ==> draft == DropLast(old(draft))
      ensures keyCode != EnterKey && keyCode != BackspaceKey && |key| == 1 ==> draft == old(draft) + key
      ensures keyCode != EnterKey && keyCode != BackspaceKey && |key| != 1 ==> draft == old(draft)
      ensures draftTags == ExtractTags(draft)
    {
      if keyCode == EnterKey {
        SaveNote(id, date);
      } else if keyCode == BackspaceKey {
        SetDraft(DropLast(draft));
      } else if |key| == 1 {
        SetDraft(draft + key);
      }
    }

    /**
     * `handleEditNote`: the draft becomes the given note text, with its
     * tags; the note list is not touched, so the note stays where it is.
     */
    method EditNote(text: string)
      requires Valid()
      modifies this
      ensures Valid()
      ensures draft == text && draftTags == ExtractTags(text)
      ensures notes == old(notes) && filters == old(filters)
    {
      SetDraft(text);
    }

    /** `handleDeleteNote`: drops the note with that id; the filters are cleared even when none matched. */
    method DeleteNote(id: Id)
      requires Valid()
      modifies this
      ensures Valid()
      ensures notes == WithoutId(old(notes), id) && filters == []
      ensures draft == old(draft) && draftTags == old(draftTags)
    {
      WithoutIdSpec(notes, id);
      SetNotes(WithoutId(notes, id));
    }

    /**
     * `handleDeleteTag`: every note loses the tag from its tags and the
     * marker of every occurrence of the tag from its text; the filters are
     * cleared.
     */
    method DeleteTag(tag: string)
      requires Valid()
      modifies this
      ensures Valid()
      ensures notes == StripTagAll(old(notes), tag) && filters == []
      ensures draft == old(draft) && draftTags == old(draftTags)
    {
      StripTagAllSpec(notes, tag);
      SetNotes(StripTagAll(notes, tag));
    }

    /** `toggleFilterTag`: selects an unselected tag, unselects a selected one. */
    method ToggleFilter(tag: string)
      requires Valid()
      modifies this
      ensures Valid()
      ensures filters == Toggled(old(filters), tag)
      ensures notes == old(notes) && draft == old(draft) && draftTags == old(draftTags)
    {
      ToggleSpec(filters, tag);
      if tag in filters {
        filters := Without(filters, tag);
      } else {
        filters := filters + [tag];
      }
    }

    /** `clearThis`: clears the filters when there are any, and otherwise every note. */
    method Clear()
      requires Valid()
      modifies this
      ensures Valid()
      ensures |old(filters)| > 0 ==> filters == [] && notes == old(notes)
      ensures |old(filters)| == 0 ==> notes == [] && filters == []
      ensures draft == old(draft) && draftTags == old(draftTags)
    {
      if |filters| > 0 {
        filters := [];
      } else {
        SetNotes([]);
      }
    }
  }

  /** A session that saves a note, toggles a filter twice and deletes the note again. */
  method Session(text: string, id: Id, date: Date, tag: string)
    requires text != ""
  {
    var store := new NoteStore();
    store.EditNote(text);
    store.SaveNote(id, date);
    assert store.notes == [Note(id, date, text, ExtractTags(text))];
    store.ToggleFilter(tag);
    store.ToggleFilter(tag);
    ToggleTwice([], tag);
    assert store.filters == [];
    store.DeleteNote(id);
    assert store.notes == [] by {
      FilterSpec([Note(id, date, text, ExtractTags(text))], (n: Note) => n.id != id);
    }
  }
}
