/**
 * The notes of the widget and the pure computations over the note list:
 * the tag list shown above the notes, the tag filter that selects the
 * visible notes, removal by id, the rewrite done when a tag is deleted, and
 * the toggling of a filter tag.
 */
module Notes {
  import opened Seqs
  import opened TagEngine

  /** The id that `uuid()` gives a note; only its freshness matters. */
  type Id = string

  /** The locale-formatted creation time, shown and never inspected. */
  type Date = string

  /** A saved note: its text and the tags found in that text when it was saved. */
  datatype Note = Note(id: Id, date: Date, text: string, tags: seq<string>)

  /** Every stored tag is a whole `#\w+` token. */
  predicate TagsWellFormed(tags: seq<string>) {
    forall t :: t in tags ==> IsTag(t)
  }

  predicate AllTagsWellFormed(notes: seq<Note>) {
    forall n :: n in notes ==> TagsWellFormed(n.tags)
  }

  /** No two notes share an id. */
  predicate UniqueIds(notes: seq<Note>) {
    forall i, j :: 0 <= i < j < |notes| ==> notes[i].id != notes[j].id
  }

  function Ids(notes: seq<Note>): set<Id> {
    set n | n in notes :: n.id
  }

  // ---------------------------------------------------------------------
  // allTags
  // ---------------------------------------------------------------------

  /** `notes.flatMap((note) => note.tags)`. */
  function FlatTags(notes: seq<Note>): seq<string>
    decreases |notes|
  {
    if notes == [] then [] else notes[0].tags + FlatTags(notes[1..])
  }

  lemma {:induction false} FlatTagsSpec(notes: seq<Note>)
    ensures forall t :: t in FlatTags(notes) <==> exists n :: n in notes && t in n.tags
    decreases |notes|
  {
    if notes != [] {
      FlatTagsSpec(notes[1..]);
      forall t | t in FlatTags(notes) ensures exists n :: n in notes && t in n.tags {
        if t !in notes[0].tags {
          assert t in FlatTags(notes[1..]);
          var n :| n in notes[1..] && t in n.tags;
          assert n in notes;
        }
      }
      forall n, t | n in notes && t in n.tags ensures t in FlatTags(notes) {
        if n != notes[0] {
          assert n in notes[1..];
        }
      }
    }
  }

  /** `[...new Set(notes.flatMap((note) => note.tags))]`. */
  function AllTags(notes: seq<Note>): seq<string> {
    Dedup(FlatTags(notes))
  }

  /**
   * The tag list holds every tag of every note exactly once, in the order
   * of first appearance across the notes.
   */
  lemma AllTagsSpec(notes: seq<Note>)
    ensures NoDup(AllTags(notes))
    ensures forall t :: t in AllTags(notes) <==> exists n :: n in notes && t in n.tags
    ensures forall t :: t in AllTags(notes) <==> t in FlatTags(notes)
    ensures forall i, j :: 0 <= i < j < |AllTags(notes)| ==>
              IndexOf(FlatTags(notes), AllTags(notes)[i]) < IndexOf(FlatTags(notes), AllTags(notes)[j])
  {
    FlatTagsSpec(notes);
    DedupSpec(FlatTags(notes));
  }

  // ---------------------------------------------------------------------
  // the visible notes
  // ---------------------------------------------------------------------

  /** `filters.every((tag) => note.tags.includes(tag))`. */
  predicate HasAll(tags: seq<string>, filters: seq<string>) {
    forall f :: f in filters ==> f in tags
  }

  /**
   * The notes listed on screen. With no filter the predicate returns the
   * note's tag array, which is always truthy.
   */
  function Visible(notes: seq<Note>, filters: seq<string>): seq<Note> {
    Filter(notes, (n: Note) => if |filters| > 0 then HasAll(n.tags, filters) else true)
  }

  /**
   * With no filter every note is visible; otherwise exactly the notes that
   * carry every filter tag are, unchanged and in their order.
   */
  lemma VisibleSpec(notes: seq<Note>, filters: seq<string>)
    ensures |filters| == 0 ==> Visible(notes, filters) == notes
    ensures forall n :: n in Visible(notes, filters) <==> n in notes && HasAll(n.tags, filters)
    ensures IsSubseq(Visible(notes, filters), notes)
  {
    FilterSpec(notes, (n: Note) => if |filters| > 0 then HasAll(n.tags, filters) else true);
  }

  // ---------------------------------------------------------------------
  // deleting a note
  // ---------------------------------------------------------------------

  /** `prev.filter((note) => note.id !== id)`. */
  function WithoutId(notes: seq<Note>, id: Id): seq<Note> {
    Filter(notes, (n: Note) => n.id != id)
  }

  lemma {:induction false} WithoutIdUnique(notes: seq<Note>, id: Id)
    requires UniqueIds(notes)
    ensures UniqueIds(WithoutId(notes, id))
    decreases |notes|
  {
    if notes != [] {
      var p := (n: Note) => n.id != id;
      assert UniqueIds(notes[1..]) by {
        forall i, j | 0 <= i < j < |notes[1..]| ensures notes[1..][i].id != notes[1..][j].id {
          assert notes[1..][i] == notes[i + 1] && notes[1..][j] == notes[j + 1];
        }
      }
      WithoutIdUnique(notes[1..], id);
      FilterKeeps(notes[1..], p);
      var rest := WithoutId(notes[1..], id);
      if p(notes[0]) {
        var r := [notes[0]] + rest;
        forall i, j | 0 <= i < j < |r| ensures r[i].id != r[j].id {
          if i == 0 {
            assert r[j] == rest[j - 1] && r[j] in notes[1..];
            var m :| 0 <= m < |notes[1..]| && notes[1..][m] == r[j];
            assert notes[m + 1] == r[j];
          } else {
            assert r[i] == rest[i - 1] && r[j] == rest[j - 1];
          }
        }
      }
    }
  }

  /**
   * Deleting by id removes every note with that id and keeps all others,
   * in order; an id no note carries leaves the list as it is.
   */
  lemma WithoutIdSpec(notes: seq<Note>, id: Id)
    ensures forall n :: n in WithoutId(notes, id) <==> n in notes && n.id != id
    ensures id !in Ids(WithoutId(notes, id))
    ensures IsSubseq(WithoutId(notes, id), notes)
    ensures id !in Ids(notes) ==> WithoutId(notes, id) == notes
    ensures UniqueIds(notes) ==> UniqueIds(WithoutId(notes, id))
    ensures AllTagsWellFormed(notes) ==> AllTagsWellFormed(WithoutId(notes, id))
  {
    FilterSpec(notes, (n: Note) => n.id != id);
    if UniqueIds(notes) {
      WithoutIdUnique(notes, id);
    }
  }

  // ---------------------------------------------------------------------
  // deleting a tag
  // ---------------------------------------------------------------------

  /**
   * The per-note rewrite of `handleDeleteTag`: every occurrence of the tag
   * in the text (as a substring) loses its first character, and the tag
   * leaves the note's tag list.
   */
  function StripTag(n: Note, t: string): Note {
    n.(text := ReplaceAll(n.text, t, Rest(t)), tags := Without(n.tags, t))
  }

  /**
   * Deleting a tag keeps the note's id and date, removes every copy of the
   * tag from its tags and keeps every copy of its other tags, in order; a
   * note that does
   * not mention the tag is left as it is.
   */
  lemma StripTagSpec(n: Note, t: string)
    ensures StripTag(n, t).id == n.id && StripTag(n, t).date == n.date
    ensures t !in StripTag(n, t).tags
    ensures multiset(StripTag(n, t).tags) == multiset(n.tags)[t := 0]
    ensures forall x :: x != t ==> (x in StripTag(n, t).tags <==> x in n.tags)
    ensures IsSubseq(StripTag(n, t).tags, n.tags)
    ensures TagsWellFormed(n.tags) ==> TagsWellFormed(StripTag(n, t).tags)
    ensures !Contains(n.text, t) && t !in n.tags ==> StripTag(n, t) == n
  {
    WithoutSpec(n.tags, t);
    StripMarker(n.text, t);
  }

  /** `prev.map(...)` of `handleDeleteTag`. */
  function StripTagAll(notes: seq<Note>, t: string): seq<Note> {
    seq(|notes|, k requires 0 <= k < |notes| => StripTag(notes[k], t))
  }

  /** After deleting a tag the tag list lacks exactly that tag. */
  lemma StripTagAllTags(notes: seq<Note>, t: string)
    ensures t !in AllTags(StripTagAll(notes, t))
    ensures forall x :: x != t ==> (x in AllTags(StripTagAll(notes, t)) <==> x in AllTags(notes))
  {
    var r := StripTagAll(notes, t);
    AllTagsSpec(notes);
    AllTagsSpec(r);
    forall x | x in AllTags(r) ensures x != t && x in AllTags(notes) {
      var m :| m in r && x in m.tags;
      var k :| 0 <= k < |r| && r[k] == m;
      WithoutSpec(notes[k].tags, t);
      assert notes[k] in notes;
    }
    forall x | x != t && x in AllTags(notes) ensures x in AllTags(r) {
      var m :| m in notes && x in m.tags;
      var k :| 0 <= k < |notes| && notes[k] == m;
      WithoutSpec(notes[k].tags, t);
      assert r[k] in r;
    }
  }

  /**
   * Deleting a tag keeps the number, order, ids and dates of the notes;
   * afterwards the tag list lacks exactly that tag.
   */
  lemma StripTagAllSpec(notes: seq<Note>, t: string)
    ensures |StripTagAll(notes, t)| == |notes|
    ensures forall k :: 0 <= k < |notes| ==>
              StripTagAll(notes, t)[k].id == notes[k].id && StripTagAll(notes, t)[k].date == notes[k].date
    ensures t !in AllTags(StripTagAll(notes, t))
    ensures forall x :: x != t ==> (x in AllTags(StripTagAll(notes, t)) <==> x in AllTags(notes))
    ensures UniqueIds(notes) ==> UniqueIds(StripTagAll(notes, t))
    ensures AllTagsWellFormed(notes) ==> AllTagsWellFormed(StripTagAll(notes, t))
  {
    var r := StripTagAll(notes, t);
    StripTagAllTags(notes, t);
    if AllTagsWellFormed(notes) {
      forall m | m in r ensures TagsWellFormed(m.tags) {
        var k :| 0 <= k < |r| && r[k] == m;
        assert notes[k] in notes;
        WithoutSpec(notes[k].tags, t);
      }
    }
  }

  /**
   * The delete buttons sit on the entries of the tag list. With well-formed
   * notes such an entry is a whole tag, so the replacement text `t.slice(1)`
   * consists of word characters only and holds no `$`.
   */
  lemma ListedTagIsWhole(notes: seq<Note>, t: string)
    requires AllTagsWellFormed(notes) && t in AllTags(notes)
    ensures IsTag(t)
    ensures forall k :: 0 <= k < |Rest(t)| ==> IsWordChar(Rest(t)[k])
    ensures '$' !in Rest(t)
  {
    AllTagsSpec(notes);
    var n :| n in notes && t in n.tags;
    assert forall k :: 0 <= k < |Rest(t)| ==> Rest(t)[k] == t[k + 1];
  }

  // ---------------------------------------------------------------------
  // toggling a filter
  // ---------------------------------------------------------------------

  /** `toggleFilterTag`: drop the tag when it is selected, else append it. */
  function Toggled(filters: seq<string>, tag: string): seq<string> {
    if tag in filters then Without(filters, tag) else filters + [tag]
  }

  /**
   * Toggling flips whether the tag is selected and leaves every other
   * tag's selection alone; it keeps the filters free of duplicates.
   */
  lemma ToggleSpec(filters: seq<string>, tag: string)
    ensures tag in Toggled(filters, tag) <==> tag !in filters
    ensures forall x :: x != tag ==> (x in Toggled(filters, tag) <==> x in filters)
    ensures NoDup(filters) ==> NoDup(Toggled(filters, tag))
  {
    WithoutSpec(filters, tag);
  }

  /**
   * Toggling the same tag twice restores the selected set, and restores
   * the very sequence when the tag was not selected before.
   */
  lemma ToggleTwice(filters: seq<string>, tag: string)
    ensures forall x :: x in Toggled(Toggled(filters, tag), tag) <==> x in filters
    ensures tag !in filters ==> Toggled(Toggled(filters, tag), tag) == filters
  {
    ToggleSpec(filters, tag);
    ToggleSpec(Toggled(filters, tag), tag);
    if tag !in filters {
      WithoutAppended(filters, tag);
    }
  }
}
