# Palette editor: list store and palette transforms

A model of the domain logic of a browser palette editor. A palette is
`{id, title, sections}`, a section is `{id, title, colors}`, and a color is a string.
Two layers are modelled:

- **Editor** (`src/components/card.jsx`): the card handlers, each a pure
  palette → palette transform. Covered: rename the palette, add a section, rename a
  section, delete a section, add a color (with `#` normalisation) and remove a
  color by position.
- **Store** (`src/app/page.jsx`): the home page's list of palettes and the string
  stored under the `"palettes"` key. Each handler computes a new list and writes it
  through `savePalettes`: add palette, update by id, delete by id, delete all,
  import (replace only) and the three-way startup load.
- **App** wires the two together: the card's `setAndSync`, the card's delete
  button, and whole sequences of clicks.

Modelling choices:

- Ids are JavaScript numbers compared with `===`, modelled as `int`.
  `Date.now()` readings are parameters, and nothing claims they are unique.
- `sections` is an `Option`, because every section and color handler reads `palette.sections || []`.
- The in-memory state is a `Json` value: an array of palettes or anything else.
  The startup load sets whatever `JSON.parse` returns, without checking that it is an
  array. The stored string is not rewritten on that path, so every reload comes back
  to the same non-array state (`Store.NonArrayStartupRecurs`).
- `JSON.stringify`/`JSON.parse` form a `Codec` of two function values.
  `Store.Lawful` states JSON's promise: the text is never empty and parses back to the list.
  Lemmas that need this promise require it.
- `Editor.AddColor` returns `None` when the handler returns early on an empty color.
  In that case nothing is synced, which matters when two list entries share an id.

Behaviour of the code worth stating plainly:

- An unparsable stored string gives the empty list. Storage is not rewritten and the
  defaults are not restored (`Store.LoadSynced`).
- A section renamed to the empty title keeps the empty title; nothing reverts to a
  placeholder (`Editor.SaveEditingKeepsEmptyTitle`).
- Import only replaces the list, and anything other than an array is rejected.
  There is no append/merge mode and no id de-duplication.
- Ids come from the clock with no collision check, so palette ids can repeat
  (`App.SharedIdEditOverwritesTwin`).

## Model

| member | source | states |
|---|---|---|
| `Seqs.Map` | src/components/card.jsx:40-42 | `map` keeps the length and transforms each position independently |
| `Seqs.Filter` | src/components/card.jsx:47 | `filter` keeps exactly the elements the predicate accepts (both directions); it never grows the list, and if every element is kept it is the identity |
| `Seqs.FilterAppend` | src/app/page.jsx:78 | filtering distributes over concatenation, so survivors keep their relative order |
| `Seqs.FilterMultiset` | src/app/page.jsx:78 | every occurrence of a kept value survives and every occurrence of a dropped value goes |
| `Seqs.FilterKeepsKeysDistinct` | src/components/card.jsx:47 | filtering never makes two elements share a key |
| `Seqs.FilterPositions` | src/components/card.jsx:63 | the positional filter `(_, i) => i !== drop` cuts out exactly the element at `drop` when it is in range, and otherwise returns the list unchanged |
| `Seqs.RemoveAt` | src/components/card.jsx:63 | removing at an in-range index yields `s[..i] + s[i+1..]` and shortens the list by one; an out-of-range index (negative or too large) changes nothing |
| `Palettes.SectionsOf` | src/components/card.jsx:34 | `sections || []`: a missing section list reads as empty |
| `Decimal.NatToString` | src/app/page.jsx:65 | `${n}` of a natural number is a non-empty string of digits with no leading zero |
| `Decimal.ParseRendered` | src/app/page.jsx:65 | reading the rendered digits back gives the number (round trip) |
| `Decimal.RenderingInjective` | src/app/page.jsx:65 | distinct numbers render differently |
| `Editor.NormalizeColor` | src/components/card.jsx:53 | the stored color starts with `#`; the input is a suffix of it and it is at most one character longer; it equals the input exactly when the input already starts with `#` |
| `Editor.NormalizeIdempotent` | src/components/card.jsx:53 | normalising twice is the same as normalising once |
| `Editor.UpdatePaletteTitle` | src/components/card.jsx:83-85 | only the title changes; the id and sections are kept |
| `Editor.AddSection` | src/components/card.jsx:31-35 | the section count grows by one; earlier sections are unchanged; the last section is `{id, "Nueva Sección", []}`; a missing section list counts as empty; the palette id and title are kept |
| `Editor.UpdateSectionTitle` | src/components/card.jsx:39-44 | the count, ids and colors of the sections are kept; matching sections get the new title verbatim, and the others keep their title |
| `Editor.SaveEditingKeepsEmptyTitle` | src/components/card.jsx:72-75 | committing an empty title stores the empty title; there is no placeholder |
| `Editor.DeleteSection` | src/components/card.jsx:46-49 | no surviving section has the id; every surviving section was present before; every non-matching section survives; with no match the sections are unchanged |
| `Editor.DeleteSectionKeepsOrder` | src/components/card.jsx:46-49 | the surviving sections keep their relative order |
| `Editor.DeleteSectionCounts` | src/components/card.jsx:47 | matching sections are removed in every copy, and the others keep their multiplicity |
| `Editor.AddColor` | src/components/card.jsx:51-57 | nothing is produced exactly when the color is empty; otherwise the normalised color is appended to every matching section, while ids, titles, other sections and their order are kept |
| `Editor.RemoveColor` | src/components/card.jsx:61-66 | in matching sections the color at the index is removed when in range, and the colors are unchanged when not; other sections are untouched |
| `Editor.RenamesKeepColorsNormalized` | src/components/card.jsx:39-44 | renaming keeps every stored color starting with `#` |
| `Editor.AddSectionKeepsColorsNormalized` | src/components/card.jsx:31-35 | adding a section keeps every stored color starting with `#` |
| `Editor.DeleteSectionKeepsColorsNormalized` | src/components/card.jsx:46-49 | deleting a section keeps every stored color starting with `#` |
| `Editor.AddColorKeepsColorsNormalized` | src/components/card.jsx:51-57 | adding a color keeps every stored color starting with `#` |
| `Editor.RemoveColorKeepsColorsNormalized` | src/components/card.jsx:61-66 | removing a color keeps every stored color starting with `#` |
| `Editor.SameIdsKeepDistinct` | src/components/card.jsx:40-42 | an edit that leaves every section id in place keeps section ids distinct |
| `Editor.EditsKeepSectionIdsDistinct` | src/components/card.jsx:39-66 | renames and color edits keep section ids distinct |
| `Editor.DeleteSectionKeepsIdsDistinct` | src/components/card.jsx:46-49 | deleting sections keeps section ids distinct |
| `Editor.AddSectionFreshIdKeepsDistinct` | src/components/card.jsx:31-35 | a section added under an id not yet used keeps section ids distinct (the code does not check freshness) |
| `Store.Save` | src/app/page.jsx:57-60 | the state and the stored value both hold the list; with a lawful codec the store is synced |
| `Store.DefaultPalettes` | src/app/page.jsx:23-51 | two palettes with ids `t1` and `t2 + 1`, distinct when the clock does not go backwards; their colors start with `#` and their section ids are distinct |
| `Store.Load` | src/app/page.jsx:12-55 | a present, non-empty stored string becomes the parsed value, or the empty list if it does not parse, and storage is untouched; an absent or empty string gives the defaults, written to storage |
| `Store.NonArrayStartupRecurs` | src/app/page.jsx:13-16 | a stored string parsing to a non-array becomes the state and stays stored, so a reload reaches the same state again |
| `Store.ReloadRestoresState` | src/app/page.jsx:13-16 | loading a synced store reproduces it |
| `Store.LoadSynced` | src/app/page.jsx:13-53 | after startup the store is synced exactly when the stored string was absent, empty or parsable |
| `Store.NewPaletteTitle` | src/app/page.jsx:65 | the title is `"Paleta "` followed by canonical digits (no leading zero) that read back as the number |
| `Store.NewPaletteTitleInjective` | src/app/page.jsx:65 | different list lengths give different default titles |
| `Store.AddPalette` | src/app/page.jsx:62-70 | one palette `{now, "Paleta <length+1>", []}` is appended, existing entries are unchanged, and the result is saved; a non-array state is unchanged |
| `Store.UpdatePalette` | src/app/page.jsx:72-75 | every entry with the palette's id becomes the palette; the length and the other entries are kept; with no match the list is unchanged; the result is saved |
| `Store.UpdateReplacesOneEntry` | src/app/page.jsx:72-75 | with distinct ids, an update that keeps entry `k`'s id replaces entry `k` alone and keeps ids distinct |
| `Store.DeletePalette` | src/app/page.jsx:77-80 | afterwards no entry has the id; survivors were present; every non-matching entry survives; with no match the list is unchanged; the result is saved |
| `Store.DeletePaletteKeepsOrder` | src/app/page.jsx:77-80 | the surviving entries keep their relative order |
| `Store.DeletePaletteMultiset` | src/app/page.jsx:77-80 | after a delete, every palette value has multiplicity 0 if it has the id and its old multiplicity otherwise, for all values at once |
| `Store.DeletePaletteCounts` | src/app/page.jsx:78 | matching entries are removed in every copy, and the others keep their multiplicity |
| `Store.DeletePaletteKeepsIdsDistinct` | src/app/page.jsx:77-80 | deleting keeps palette ids distinct |
| `Store.DeleteAll` | src/app/page.jsx:145-148 | once confirmed, the state and storage both hold the empty list; unconfirmed, nothing changes |
| `Store.Import` | src/app/page.jsx:92-109 | a parsed array replaces the state unmodified and is saved; a missing file, a read or parse failure, or a non-array leaves the store unchanged, and each exit is reported distinctly |
| `Store.HandlersKeepSynced` | src/app/page.jsx:57-109 | with a lawful codec, every list handler keeps the stored string parsing to the state |
| `App.SyncEdit` | src/components/card.jsx:22-25 | an edited palette replaces every list entry with its id, the other entries and the length are kept, and the list is saved; an early-returning handler, or a non-array state, changes nothing |
| `App.RemovePalette` | src/components/card.jsx:87-91 | once confirmed, the button is exactly `deletePalette` on the card's id: that id is gone, every other entry keeps its multiplicity, nothing new appears, and the list is saved (order by `Store.DeletePaletteKeepsOrder`); unconfirmed, nothing changes |
| `App.CardEditReplacesItsEntry` | src/components/card.jsx:22-25 | with distinct palette ids, a synced card edit that keeps its palette's id replaces exactly its own entry of the list |
| `App.EmptyColorChangesNothing` | src/components/card.jsx:52 | adding an empty color changes neither the state nor storage |
| `App.SharedIdEditOverwritesTwin` | src/app/page.jsx:73 | when two entries share an id, an edit in one card is written over both |
| `App.DeletedIdStaysGone` | src/app/page.jsx:62-80 | a deleted id is not brought back by adding a palette under another id |
| `App.AddThreeClearReload` | src/app/page.jsx:12-70 | three adds to an empty list give "Paleta 1", "Paleta 2" and "Paleta 3" (with distinct ids for distinct clock readings); delete-all then survives a reload as the empty list, not the defaults |

## Left out

- Rendering, styling and view state: the markup of `Button`, `Color` and `SectionTitleInput`, expand/collapse, the five-color preview, the editing and color-input flags, and the visibility of the delete-all button. None of these are palette data.
- Clipboard copy and its `setTimeout` feedback: asynchronous browser APIs.
- Blob/URL download export of the list and of a single palette: browser I/O. The per-palette "import sections" button only shows an alert.
- `JSON.parse`/`JSON.stringify` internals: they are the `Codec` parameter; the model does not contain a JSON codec.
- `localStorage`: a single optional string cell; the key name is not modelled.
- `Date.now()`, `confirm` and the file picker: parameters (`now`/`t1`/`t2`, `confirmed`, `FilePick`). The alerts and the console message of `importJSON` are the `ImportOutcome`; the `console.error` at startup (src/app/page.jsx:18) is not modelled.
- Array elements that are not palette-shaped, ids that are not numbers, and sections without `colors`. Parsed arrays are modelled as lists of well-formed palettes with integer ids. A section without `colors` is terminal in the program, like a non-array state: the card's render calls `section.colors.slice(0, 5)` (src/components/card.jsx:125) on every unexpanded section, which throws, so the page fails before any handler can run. Once such a palette has been imported it is also in storage, so every reload fails the same way.
- The `section.id ?? sectionIndex` fallback key: sections always have an id.
- The card's local copy of its palette and its resynchronising effect: edits are applied to the palette the list holds, which is what the copy equals after it resynchronises.
- A non-array state is terminal in the program: the page's render calls `palettes.map` (src/app/page.jsx:160), which throws on it, so no handler can run. The model's non-array branches of the list handlers, including the recovery through `Store.Import` and `Store.DeleteAll`, are not reachable in the program.
- Store.Save: treats `localStorage.setItem` as infallible. In the code a failed write (a storage quota error) throws after `setPalettes` has already run, so the state changes and storage keeps its old value. The model does not represent that outcome.
- Store.Import: when the write in `savePalettes` fails, the code reports "Error leyendo el archivo JSON." although the state was already replaced. The model's clause that a non-`Imported` outcome leaves the store unchanged does not cover that case, because the model has no failed write.
- Store.AddPalette: leaves every non-array state unchanged. In the code such a state never reaches the handler (see the line on non-array states above), so the string-spreading `[...palettes, newPalette]` on a string state is not modelled.
