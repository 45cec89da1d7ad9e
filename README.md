# Note widget with hashtag tags — a Dafny model

This project models the logic of a single-user, in-memory note-taking
widget (the `App` component of a React application). The user types a note
one key at a time. Tags are the `#word` tokens in the text, found with the
regular expression `/#\w+/g`. Saving turns the draft into a note with a
fresh id. Notes can be edited back into the draft or deleted. A tag can be
deleted from every note at once. The notes on screen can be narrowed to
those carrying all selected filter tags.

The model has five parts:

- `Seqs` (`seqs.dfy`): the array operations the component uses —
  `filter` and `[...new Set(xs)]` (deduplication in insertion order).
  `IndexOf`, the first position of an element, is a helper the model uses
  to state order. The component itself only calls `includes`, which is
  Dafny's `in`.
- `TagEngine` (`tag_engine.dfy`): the text helpers. These are the global
  scan of `#\w+`, `split`/`join`, `replace` and `replaceAll` with a string
  pattern, and the word-by-word highlighting done by `highlightNote`.
- `Notes` (`notes.dfy`): the `Note` record and the pure computations over
  the note list. These are the tag list `allTags`, the visible-notes
  filter, deletion by id, the per-note rewrite of tag deletion, and
  filter toggling.
- `App` (`app.dfy`): the component's four state fields as the class
  `NoteStore`, with one method per event handler. React's two effects
  become explicit steps. `SetDraft` recomputes the draft's tags whenever
  the draft changes. `SetNotes` clears the filters whenever the note list
  is assigned.
- `Scenarios` (`scenarios.dfy`): concrete texts that show how repeated
  tags and substring deletion behave.

`\w` is ASCII `[A-Za-z0-9_]`. JavaScript widens it only when the `u` and
`i` flags are both set, and this regular expression has neither. A string is a sequence of Dafny characters.

Calls into code the model cannot see become parameters:

- `uuid()` becomes the `id` argument of `SaveNote` and `KeyDown`. When a
  note is actually saved, the precondition requires that no existing note
  already uses that id.
- The locale-formatted date becomes the `date` argument. Its type is
  plain text and the model never inspects it.

## Model

| member | source | states |
|---|---|---|
| `TagEngine.WordEnd` | src/App.tsx:16 | the greedy `\w+` run from `k` ends at the first non-word character or at the end of the text, and every character before that point is a word character |
| `TagEngine.Scan` | src/App.tsx:16 | every match of the global scan starts at or after the scan position, at a `#` followed by a word character, and extends over the greedy word run |
| `TagEngine.ScanOrdered` | src/App.tsx:16 | matches come left to right and never overlap |
| `TagEngine.ScanComplete` | src/App.tsx:16 | matches begin exactly at the positions where `#` is followed by a word character: none is missed and no other position starts one |
| `TagEngine.ExtractTagsSpec` | src/App.tsx:39 | `createTags` yields one string per match, in match order, each the text of its match and each a whole `#\w+` token |
| `TagEngine.ExtractTagsOccur` | src/App.tsx:39 | every extracted tag is a `#\w+` token that occurs as a substring of the text |
| `TagEngine.NoHashNoTags` | src/App.tsx:39 | a text without `#` gives the empty tag list (the `\|\| []` fallback for a failed match) |
| `TagEngine.ExtractTagsOfTag` | src/App.tsx:39 | a text that is one whole tag yields exactly that tag |
| `TagEngine.SplitOn` | src/App.tsx:73 | `split` yields at least one piece, and the first piece is a prefix of the text |
| `TagEngine.SplitPiecesFree` | src/App.tsx:73 | no piece of `split` contains the separator |
| `TagEngine.JoinSplit` | src/App.tsx:73 | joining the pieces of `split` with the separator gives back the text |
| `TagEngine.SplitCount` | src/App.tsx:73 | splitting on one character yields exactly one more piece than the text has occurrences of that character |
| `TagEngine.SplitJoin` | src/App.tsx:73 | splitting a join of separator-free words on that separator gives the words back (the other direction of the round trip) |
| `TagEngine.RemoveFirstSpec` | src/App.tsx:79 | `word.replace('#', '')` drops only the first `#`; a word without `#` is unchanged; for a tag it drops the leading marker |
| `TagEngine.ReplaceAllSplitJoin` | src/App.tsx:103 | `replaceAll` with a non-empty pattern equals splitting on the pattern and joining with the replacement |
| `TagEngine.ReplaceAllAbsent` | src/App.tsx:103 | a text in which the pattern does not occur is left unchanged |
| `TagEngine.StripMarker` | src/App.tsx:103 | deleting tag `t` turns a text made of pieces separated by `t` into the same pieces separated by `t` without its first character; a text without `t` is unchanged, and an empty `t` changes nothing |
| `TagEngine.TokenizeRoundTrip` | src/App.tsx:70-86 | highlighting yields one segment more than the text has spaces; no segment's word contains a space; the words joined by single spaces rebuild the text |
| `TagEngine.TokenizeClassify` | src/App.tsx:73-85 | a segment is emphasized exactly when its word is non-empty and equal to one of the note's tags, and then shows the word without its first `#`; a segment is blank exactly when its word is empty; when every tag of the note is a whole tag, an emphasized segment shows the word without its leading `#` |
| `TagEngine.TokenizeJoin` | src/App.tsx:73 | highlighting a text assembled from space-free words yields exactly those words |
| `Seqs.FilterSpec` | src/App.tsx:179 | `filter` keeps exactly the elements that satisfy the predicate, every copy of each, in their order, and keeps everything when every element satisfies it |
| `Seqs.WithoutSpec` | src/App.tsx:111 | `filter((el) => el !== tag)` removes every copy of the tag and keeps every copy of every other element, in order; it is the identity when the tag is absent and keeps a duplicate-free list duplicate-free |
| `Seqs.DedupSpec` | src/App.tsx:137 | `[...new Set(xs)]` keeps each element exactly once, the same elements as `xs`, ordered by first occurrence |
| `Notes.FlatTagsSpec` | src/App.tsx:26 | `flatMap` of the notes' tags contains a tag exactly when some note carries it |
| `Notes.AllTagsSpec` | src/App.tsx:26 | `allTags` lists every tag of every note exactly once, in the order of first appearance across the notes |
| `Notes.VisibleSpec` | src/App.tsx:178-179 | with no filter every note is visible; otherwise the visible notes are the unaltered, order-preserving subsequence of notes whose tags include every filter tag (AND) |
| `Notes.WithoutIdSpec` | src/App.tsx:95-97 | deleting by id removes every note with that id and keeps all others in order; an unknown id leaves the list unchanged; unique ids and well-formed tags are preserved |
| `Notes.StripTagSpec` | src/App.tsx:101-105 | the per-note rewrite keeps id and date, removes every copy of the tag from the note's tags while keeping every copy of the others, in order, and leaves a note that does not mention the tag unchanged |
| `Notes.StripTagAllSpec` | src/App.tsx:99-107 | deleting a tag keeps the number, order, ids and dates of the notes; afterwards the tag list lacks exactly the deleted tag and keeps every other tag |
| `Notes.ToggleSpec` | src/App.tsx:109-115 | toggling flips the tag's membership in the filters, leaves every other tag's membership alone, and keeps the filters duplicate-free |
| `Notes.ToggleTwice` | src/App.tsx:109-115 | toggling twice restores the set of filter tags, and restores the exact sequence when the tag was not selected before |
| `App.NoteStore.constructor` | src/App.tsx:21-24 | the state starts with no notes, an empty draft without tags, and no filters |
| `App.NoteStore.SetDraft` | src/App.tsx:41-43 | a new draft always comes with the tags extracted from it; notes and filters are untouched |
| `App.NoteStore.SetNotes` | src/App.tsx:37 | assigning the note list clears the filters |
| `Notes.ListedTagIsWhole` | src/App.tsx:150-159 | a tag offered for deletion is an entry of the tag list, so with well-formed notes it is a whole tag and its replacement text `t.slice(1)` holds only word characters, in particular no `$` |
| `App.NoteStore.SaveNote` | src/App.tsx:45-58 | an empty draft changes nothing; otherwise exactly one note with the fresh id, the draft's text and `ExtractTags` of it is appended after the unchanged earlier notes, the draft and its tags become empty, and the filters are cleared |
| `App.NoteStore.KeyDown` | src/App.tsx:60-68 | code 13 saves; code 8 drops the last character (an empty draft stays empty); a one-character key is appended; any other key changes nothing; the draft's tags always equal `ExtractTags` of the draft |
| `App.NoteStore.EditNote` | src/App.tsx:89-93 | the draft becomes the note's text with its extracted tags; the notes and the filters are not touched |
| `App.NoteStore.DeleteNote` | src/App.tsx:95-97 | the notes become those whose id differs, and the filters are cleared, also when no note had the id |
| `App.NoteStore.DeleteTag` | src/App.tsx:99-107 | every note is rewritten by the per-note tag deletion and the filters are cleared; the draft is untouched |
| `App.NoteStore.ToggleFilter` | src/App.tsx:109-115 | the filters become the toggled filters; nothing else changes |
| `App.NoteStore.Clear` | src/App.tsx:117-120 | with filters selected only the filters are emptied and the notes stay; with no filters every note is removed |
| `Scenarios.RepeatedTagsKept` | src/App.tsx:39 | `"#a #a #b"` yields `["#a", "#a", "#b"]`: the scan keeps repeated tags |
| `Scenarios.RepeatedTagsShownOnce` | src/App.tsx:137 | the tag list shown under the input for `"#a #a #b"` is `["#a", "#b"]` |
| `Scenarios.DeleteTagRewritesLongerTag` | src/App.tsx:103-104 | deleting `#work` turns the text `#workday` into `workday`, but the note keeps `#workday` among its tags, a tag the new text no longer contains |

Every `NoteStore` method requires and keeps `Valid()`. That
predicate says four things:

- The draft's tags are `ExtractTags` of the draft.
- Note ids are unique.
- Every stored tag is a whole `#\w+` token.
- No filter tag is selected twice.

`SetNotes` also requires the new list to have unique ids and well-formed
tags. Every handler that calls it proves this of the list it passes.

The method `App.Session` is a client of the class. It shows what the
contracts let a caller conclude about a session that saves a note,
toggles a filter twice and deletes the note again.

## Behaviour that may be unexpected

The model follows the code in each of these five cases. Each differs from
what one might expect of a note widget:

- Repeated tags are kept. For the draft `"#a #a #b"`, the draft's tags and
  the saved note's tags are `["#a", "#a", "#b"]` (`src/App.tsx:39`,
  `Scenarios.RepeatedTagsKept`). Only the tag lists on screen remove
  duplicates (`src/App.tsx:26`, `src/App.tsx:137`).
- Editing does not take the note out of the list. `handleEditNote`
  copies the text into the draft and leaves the list alone
  (`src/App.tsx:89-93`). Saving the edited draft therefore adds a second
  note.
- Deleting a note clears the selected filters. Every assignment to the
  note list triggers the effect at `src/App.tsx:37`. This happens even
  when no note has the given id.
- A draft of spaces is saved as a note. `handleSaveNote` tests only
  whether the draft is the empty string (`src/App.tsx:46`).
- After a tag is deleted, a note's tags can differ from the tags of its
  text. Tag deletion replaces substrings (`src/App.tsx:103`). Deleting
  `#work` therefore also rewrites `#workday` to `workday`, while the note
  keeps `#workday` in its tags (`Scenarios.DeleteTagRewritesLongerTag`).
  For this reason the invariant does not say that a note's tags are the
  tags of its text. It says only that every stored tag is a whole tag.

## Left out

- Rendering is not modelled: the JSX, CSS class names, `&nbsp;` markup,
  the `key`s of list items, and the `uuid()` calls used as React keys in
  `highlightNote`. `Tokenize` stops at the segments.
- Focus management is not modelled (`focusOnInput`, `inputRef`, the
  effect at `src/App.tsx:28-35`, the call in `handleEditNote`). These are
  DOM side effects.
- The note detail view is not modelled: the `openNote` state, the `Modal`
  lookup (`src/App.tsx:124`) and `src/components/Modal.tsx`. They only
  present one note's date, text and deduplicated tags (`Seqs.Dedup`);
  they hold no state logic.
- The ids from `react-uuid` and the locale-formatted date are
  parameters, for the reasons given above.
- React's effect scheduling and batching are not modelled. The two
  effects run as explicit steps inside the handlers. One event's effects
  finish before the next event, so the state after each handler is the
  same.
- App.NoteStore.KeyDown: the model counts characters, while JavaScript
  counts UTF-16 code units. A key whose value is one astral character has
  `e.key.length === 2`, so the source ignores it. Backspace after such a
  character removes only half of it in the source. Neither case is
  modelled.
- `replaceAll` and `replace` read special `$` patterns in the replacement
  string. These are not modelled. In `highlightNote` the replacement is
  empty. In tag deletion it is the deleted tag without its `#`. For the
  tags the interface offers, that text holds no `$`
  (`Notes.ListedTagIsWhole`).
- App.NoteStore.DeleteTag: the method accepts any tag, as
  `handleDeleteTag` does. For a tag whose remainder after the first
  character contains `$`, JavaScript would expand `$` patterns and the
  model would differ. The interface never passes such a tag.
- `split` is modelled only for a non-empty separator. The component
  splits only on `' '`.
