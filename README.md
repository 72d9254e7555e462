# ebitenui List: entry bookkeeping and selection, in Dafny

This project models the core of the `List` widget in `widget/list.go`:
the part that keeps the list's data consistent, not the part that draws it.
A `List` holds three index-aligned sequences:

- its entries;
- one row button per entry;
- one remove function per button, which detaches that button from the
  scrollable content container.

It also holds the selected entry, the `AllowReselect` option, the entry
label function and a one-shot initializer (`createWidget`) that builds the
rows on first use.

The model has two files:

- `list_spec.dfy` (module `ListSpec`) holds the value-level
  specification. It has these functions:
  - `Filter`: the entries that differ from a value.
  - `Compact`: what `RemoveEntry`'s write-index loop keeps, and the slot
    it records.
  - `DropSlot`: one index taken out.
  - `Shrink`: what `UpdateEntries`' first loop leaves.
  - `Substitute`: `ReplaceEntry` on the entries.
  - `Follow` and `Track`: how the selection moves when slots are
    overwritten.
  - `DetachFirst`: the container's removal of a child.

  It also holds the lemmas that relate these functions to one another.
- `list.dfy` (module `Lists`) holds the widget. `List` is a class whose
  fields the methods update in place: `entries`, `buttons`, `removeFuncs`,
  the container's `children`, `selectedEntry` and a ghost log of every
  `EntrySelectedEvent` fired. `Button` is a class with a text and a style,
  and the methods change those in place.
  - Each Go loop is a Dafny loop with its invariants: the row loop of
    `createWidget`, the restyling loop, the three write-index loops of
    `RemoveEntry`, the relabelling loop of `ReplaceEntry`, the three loops
    of `UpdateEntries` and `getButtonNum`'s search.
  - Each method is proved against the specification functions.

`Valid()` is the invariant that every operation keeps:

- the buttons, the remove functions and the container's children agree;
- after initialization there is never an entry without a button.

`Aligned()` is the stronger invariant: row `i` shows `entries[i]`. It is
kept by every operation except three:

- `RemoveEntry` of a value that occurs more than once;
- `RemoveEntryAt`, which calls `RemoveEntry`;
- `UpdateEntries`, which calls `RemoveEntry` through `RemoveEntryAt`.
  This happens when the list shrinks over duplicate entries.

`RemoveEntry` breaks it because:

- Its first loop drops every equal entry.
- It removes only one button and one remove function: the ones at the
  write index recorded at the last match. That index is the position of
  the last copy minus the number of copies before it.
- So afterwards there are fewer entries than buttons.

`RemoveEntry` does not remove only the first equal entry. `[A, B, A]`
becomes `[B]` (`CompactABA`), and only the row at slot 1 leaves. That is
the row of `B`, so the two rows left both show `A` while the one entry
left is `B`.

`UpdateEntries` moves the selection slot by slot through `ReplaceEntryAt`,
so one replacement can carry it into the next. Suppose `A` is selected
and `[A, B]` is updated to `[B, C]`. Slot 0 moves the selection to `B`,
then slot 1 moves it on to `C` (`TrackChains`).

## Model

| member | source | states |
|---|---|---|
| ListSpec.Filter | widget/list.go:419-430 | the entries that survive removing `x`: their count is the old count less the copies of `x`, and `x` is not among them |
| ListSpec.DropSlot | widget/list.go:435-455 | taking index `k` out shortens by one, keeps the elements before `k` and shifts the ones after it down by one |
| ListSpec.Compact | widget/list.go:419-430 | RemoveEntry's first loop, read front to back: it records a slot (the write index at a match) exactly when `x` occurs |
| ListSpec.CompactBounds | widget/list.go:419-430 | RemoveEntry's first loop keeps one entry per entry different from `x` and none equal to it; it records a slot within the kept entries exactly when `x` occurs |
| ListSpec.CompactKeepsFilter | widget/list.go:419-430 | the entries the write-index loop keeps are exactly the entries different from `x`, in their original order |
| ListSpec.CompactAbsent | widget/list.go:419-430 | removing a value that does not occur keeps every entry and records no slot |
| ListSpec.CompactSingle | widget/list.go:419-430 | a value occurring once, at index `k`, is removed from slot `k` alone and `k` is the recorded slot |
| ListSpec.CompactDuplicates | widget/list.go:419-433 | with two or more copies, at least two entries go while the recorded slot is a valid index of the rows |
| ListSpec.CompactSlotAtLast | widget/list.go:421-429 | the recorded slot is the index of the last copy of `x` minus the number of copies before it |
| ListSpec.CompactABA | widget/list.go:421-433 | with `a != b`, removing `a` from `[a, b, a]` keeps `[b]` and records slot 1, so the rows lose the middle button rather than a button of `a` |
| ListSpec.CompactFrontDistinct | widget/list.go:409-430 | with distinct entries, removing the front entry's value takes out exactly slot 0 |
| ListSpec.Shrink | widget/list.go:348-350 | the removal loop stops at no more than the new length, or leaves the entries alone when they are already short enough |
| ListSpec.ShrinkFrontStep | widget/list.go:348-350 | one round of the removal loop on distinct entries drops only the front entry, and the rest stay distinct |
| ListSpec.ShrinkDistinct | widget/list.go:348-350 | with distinct entries the removal loop keeps exactly the last `m` entries, in order |
| ListSpec.RemoveLabels | widget/list.go:416-457 | removing a value that occurs at most once removes from the labels exactly the slot the first loop records, or nothing when it is absent |
| ListSpec.RemoveKeepsAligned | widget/list.go:416-457 | rows that showed the entries still show them after removing a value that occurs at most once |
| ListSpec.Substitute | widget/list.go:374-379 | ReplaceEntry on the entries: the length is kept, and `current` no longer occurs unless it is `x` itself |
| ListSpec.SubstituteCounts | widget/list.go:374-379 | after ReplaceEntry the length is unchanged, `current` no longer occurs, and `x` occurs once per earlier `x` plus once per earlier `current` |
| ListSpec.SubstituteLabels | widget/list.go:374-379 | relabelling every row whose entry equals `current` leaves rows showing the substituted entries |
| ListSpec.DetachFirst | widget/list.go:433 | the container's removal of a child: a present child shortens the children by one, an absent one changes nothing, and nothing new appears |
| ListSpec.DetachDistinct | widget/list.go:433 | calling the remove function of button `k` takes exactly child `k` out of a container whose children are distinct |
| ListSpec.Follow | widget/list.go:364-366 | the selection after one slot holding `current` is replaced: it becomes `x` exactly when it equalled `current`, and otherwise stays |
| ListSpec.Track | widget/list.go:351-353 | the selection after the overwrite loop: if it changed, it is one of the new values written |
| ListSpec.TrackUnmatched | widget/list.go:351-353 | a selection equal to none of the overwritten old entries is left alone by the overwrite loop |
| ListSpec.TrackFollowsSlot | widget/list.go:351-353 | with distinct old entries, a selection on slot `k` ends on the new value of slot `k` unless that value is an old entry overwritten later |
| ListSpec.TrackChains | widget/list.go:351-353 | a selected `A`, with `[A, B]` updated to `[B, C]`, ends as `C`, not as the `B` now in `A`'s slot |
| Lists.Button.constructor | widget/list.go:252-261 | a new row button shows the given text in the given style |
| Lists.SelectThenReplace | widget/list.go:317-369 | a caller selects the last entry of a new list, replaces that entry with ReplaceEntryAt and reads the selection back: it is the replacement |
| Lists.AddThenSelect | widget/list.go:317-343 | a caller appends an entry to a new list with AddEntry and selects it: the new bottom row is the only selected one |
| Lists.CompactEntries | widget/list.go:419-430 | the write-index loop over the entries returns what Compact specifies, which is the entries different from `x` |
| Lists.CompactOut | widget/list.go:435-455 | the write-index loops over the buttons and the remove functions return the sequence without the removed index |
| Lists.List.constructor | widget/list.go:71-85 | a new list holds the given entries, label function and AllowReselect flag, has no selection, has fired no event, is not yet initialized, and is aligned |
| Lists.List.CreateRows | widget/list.go:248-266 | one fresh button per entry, in entry order, labelled by the label function and unselected; each is a child of the container with its own remove function |
| Lists.List.EnsureInit | widget/list.go:227-266 | the first use builds the rows; later uses change nothing; labels, styles, entries and selection are kept either way; every button not there before is fresh, so callers keep their frames |
| Lists.List.ButtonNum | widget/list.go:459-466 | returns the first index holding the button, or -1 exactly when no row holds it |
| Lists.List.SelectedEntry | widget/list.go:468-471 | returns the current selection, after initializing, and changes nothing else |
| Lists.List.SelectEntry | widget/list.go:321-343 | fires exactly when `e` differs from the selection or a user click re-selects with AllowReselect on; when it fires, the selection becomes `e`, a row is selected exactly where its entry equals `e`, and one `(e, previous)` event is logged; otherwise nothing changes |
| Lists.List.Restyle | widget/list.go:328-336 | every row gets the selected style exactly when its entry equals `e`; no text changes |
| Lists.List.SetSelectedEntry | widget/list.go:317-319 | programmatic selection: re-selecting the current entry changes nothing, any other entry fires as above; an initialized list keeps its button objects and alignment is kept |
| Lists.List.Click | widget/list.go:258-261 | clicking row `k` selects entry `k` as a user action, so it fires when that entry is new or AllowReselect is on; otherwise nothing changes |
| Lists.List.ReplaceEntryAt | widget/list.go:361-369 | only slot `i` and its label change, to `x` and the label of `x`; styles and lengths stay; the selection moves to `x` exactly when it equalled the old entry there |
| Lists.List.ReplaceRow | widget/list.go:364-368 | ReplaceEntryAt on initialized rows, stated on the buttons' texts and styles |
| Lists.List.ReplaceEntry | widget/list.go:371-383 | every slot equal to `current` gets `x` and its label, other slots are untouched, styles stay, and a selection equal to `current` becomes `x` even when no slot matched |
| Lists.List.ReplaceRows | widget/list.go:374-382 | ReplaceEntry on initialized rows; rows that showed the entries still show them |
| Lists.List.Relabel | widget/list.go:374-379 | the loop relabels exactly the rows whose entry equals `current` and returns the substituted entries; styles stay |
| Lists.List.AddEntry | widget/list.go:385-407 | `x` is appended to the entries, and one fresh unselected button labelled for `x` is appended with its remove function; earlier rows and the selection are unchanged |
| Lists.List.AddRow | widget/list.go:388-406 | AddEntry on initialized rows, stated on the buttons' texts and styles |
| Lists.List.RemoveEntry | widget/list.go:416-457 | every entry equal to `x` goes; when `x` is absent nothing else changes; otherwise exactly the recorded slot leaves the buttons, the remove functions, the labels and the styles; the selection stays; alignment is kept when `x` occurred at most once, and duplicates leave fewer entries than buttons |
| Lists.List.RemoveMatching | widget/list.go:419-455 | RemoveEntry on initialized rows, stated on the buttons' texts and styles |
| Lists.List.RemoveRows | widget/list.go:419-455 | the entries become what Compact keeps, and the buttons and remove functions lose exactly the recorded slot, which is -1 exactly when `x` is absent |
| Lists.List.DropRow | widget/list.go:432-455 | calling the remove function at the slot detaches its button from the container, and the slot leaves the buttons and the remove functions; the wiring invariant is kept |
| Lists.List.RemoveEntryAt | widget/list.go:409-414 | removes every entry equal to the entry at `i`, and removes the row at the recorded slot; alignment is kept when that value occurred once |
| Lists.List.UpdateEntries | widget/list.go:345-359 | the entries end equal to `ns` and the selection is carried through the overwritten slots in turn; a growing list keeps every old button, in order, and appends unselected ones; with distinct entries a shrinking list keeps the last buttons, in order; rows stay aligned |
| Lists.List.UpdateRows | widget/list.go:348-358 | the three loops of UpdateEntries on initialized rows: the entries end equal to `ns` and the selection follows the overwritten slots; texts, styles and buttons are stated when the list grows, or shrinks over distinct entries; every button not there before is fresh |
| Lists.List.ShrinkFront | widget/list.go:348-350 | the removal loop leaves Shrink of the entries; with distinct entries exactly the last `m` buttons survive, with their texts and styles |
| Lists.List.ShrinkLoop | widget/list.go:348-350 | the removal loop on the entries and buttons alone: it leaves Shrink of the entries and, with distinct entries, a suffix of the buttons |
| Lists.List.RemoveFront | widget/list.go:349 | RemoveEntryAt(0) drops every entry equal to the front one; with distinct entries, exactly the front entry and the front button go |
| Lists.List.Overwrite | widget/list.go:351-353 | each remaining slot gets the new entry and its label, buttons and styles stay, and the selection is carried slot by slot |
| Lists.List.AppendFrom | widget/list.go:354-358 | the missing new entries are appended, each with a fresh unselected button labelled for it, after the existing buttons |

## Left out

- Layout, rendering, scroll container and sliders are not modelled: the grid and row layouts, `Render`, and the page-size and scroll arithmetic (floating point). The same goes for `GetWidget`, `PreferredSize`, `SetLocation`, `RequestRelayout` and `SetupInputLayer`, which only delegate.
- The option setters, fonts, colours and images are not modelled. The two button looks are the `Style` values `Selected` and `Unselected`; the label function and AllowReselect are constructor parameters.
- `MultiOnce` is not part of this model. Initialization is the `initialized` flag, set by the first call to `EnsureInit`.
- Handlers of `EntrySelectedEvent` are not modelled. Each firing is appended to the ghost log `events`.
- `container.go` is not part of this model. A remove function is assumed to remove the first occurrence of its button from the container's children. The buttons are distinct, so that is the button's own slot.
- In `AddEntry`, the cast of the scroll container's content to `*Container` is assumed to succeed. `createWidget` always installs a `Container` there, so the remove function is always appended.
- `RemoveEntry`'s loops write nil into a slot that is then overwritten or cut off. Nil has no counterpart for a generic entry type, and the written value never survives the truncation, so the model leaves those writes out.
- Go slice aliasing is not modelled. For example, the caller's slice passed to the `Entries` option shares storage with `entries`. Here every sequence is a value.
- Entries are never nil. An entry is a value of the entry type, and only the selection can be `None`, the model's nil. In Go a nil entry equals an unset selection, which has three effects the model does not capture:
  - `ReplaceEntryAt` on a nil entry with nothing selected selects the new entry (widget/list.go:364-365);
  - `ReplaceEntry(nil, x)` with nothing selected selects `x` even when no slot matches (widget/list.go:380-381);
  - `SetSelectedEntry(nil)` gives nil entries the selected style (widget/list.go:329).
- Entries are a type with equality. Go panics when it compares non-comparable interface values; that case is not modelled.
- An index out of range panics in Go. Here those panics are preconditions:
  - `i < |entries|` for `ReplaceEntryAt` and `RemoveEntryAt`;
  - no more buttons than entries for `ReplaceEntry`, and for `setSelectedEntry` when it fires;
  - for a click, a row index within the entries.
- Lists.List.UpdateRows: the same gap as UpdateEntries, for the same reason. When it shrinks over duplicate entries, its contract states the final entries and the selection, but not the texts, styles or buttons.
- Lists.List.UpdateEntries: when the list shrinks and the old entries contain duplicates, the contract states only the final entries and the selection. It does not state the labels, styles or buttons, because how many rows each round removes depends on the duplicates.
- Lists.List.RemoveEntry: alignment after removal is stated only when the value occurred at most once. With duplicates the contract states that fewer entries than buttons remain, and which slot the rows lose.
