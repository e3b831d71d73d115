# Photism core in Dafny

Photism turns an image into music notation. The page extracts a palette of
prominent colours from an uploaded image. Each colour is classified as the
note whose reference colour it resembles most, and the notes are named with
an octave: the first occurrence of a note in a palette gets octave 4, and any
later occurrence gets octave 5. The names are kept in the registry
`window.noteConfig`, where each name has an `enabled` flag. The first three
names are enabled, and the enabled names are drawn as whole notes on a treble
staff. Clicking a colour swatch toggles its note.

The project models that core as pure functions over immutable data:

- `wrappers.dfy` (`Wrappers`): `Option` and `Result`.
- `seqs.dfy` (`Seqs`): distinctness, first and last occurrence in a sequence.
- `photism.dfy` (`Photism`): `Math.mean`, the per-colour "alikeness" score,
  and `colorToNote`. The reference table `noteMap` is a parameter: a sequence
  of (note, colour) pairs with distinct keys, in the order the JavaScript
  object enumerates them.
- `naming.dfy` (`Naming`): the octave naming `note + (~existingNotes.indexOf(note) ? '5' : '4')`.
- `noteconfig.dfy` (`NoteConfig`): the registry as a sequence of entries in
  key (insertion) order. Registration, the `enable` and `disable` closures,
  the click toggle, and the list of active notes that `renderActiveNotes`
  collects.
- `page.dfy` (`Page`): the page state, made of the registry and the rendered
  notation. `renderNotes`, the closures with their re-rendering, the swatch
  click handler, the default-enable loop, and the whole palette callback of
  `getImagePalette`.

The palette is a sequence of optional colours, one per node-vibrant swatch
slot, in enumeration order. A `None` stands for a null slot, which the
callback skips.

In these places the code's behaviour is easy to misread; the model follows
the code:

- Ties go to 'A' when 'A' is among the nearest keys. Otherwise they go to the
  first nearest key in table order, because the scan starts from 'A' and only
  moves on a strictly smaller score.
- When the table has no 'A' key, every comparison is against `undefined` and
  is false, so the answer is 'A'.
- Enabling or disabling a name that is not registered is a TypeError in the
  code. It is modelled as the error `UnknownName`.
- The notation is re-rendered only inside the `enable` and `disable`
  closures. So a new palette that registers no note leaves the previous
  notation on the page, while the registry is already empty. See Findings.

## Model

| member | source | states |
|---|---|---|
| Photism.Mean | src/photism/photism.js:8-12 | a mean exists exactly when there is at least one number (no numbers gives NaN, here `None`); the mean times the count is the sum |
| Photism.MeanWithinBounds | src/photism/photism.js:8-12 | the mean of numbers that all lie in [lo, hi] also lies in [lo, hi] |
| Photism.Distance | src/photism/photism.js:25-29 | the alikeness score is one third of the sum of the absolute channel differences |
| Photism.DistanceSymmetric | src/photism/photism.js:25-29 | the score is the same whichever of the two colours is the reference |
| Photism.DistanceZero | src/photism/photism.js:25-29 | the score is never negative, and it is zero exactly when the two colours are equal |
| Photism.DistanceWithinByteRange | src/photism/photism.js:25-29 | two colours with channels in 0..255 have a score in [0, 255] |
| Photism.DistanceOrder | src/photism/photism.js:25-37 | one score is smaller than another exactly when its integer channel-difference sum is smaller, so comparing the float means loses nothing |
| Photism.Lookup | src/photism/photism.js:22-31 | `noteAlikeness[n]` is found exactly when the table has key `n`, and then it is found at an entry with that key |
| Photism.ScanKeepsInvariant | src/photism/photism.js:34-41 | after the second loop, the chosen entry scores no worse than every entry and no worse than 'A'; if it is not 'A', it is strictly better than 'A' and than every earlier entry |
| Photism.ScanFollowsIndex | src/photism/photism.js:34-41 | the note the loop returns is the key of the entry the loop's best position tracks |
| Photism.ScanKeepsMissing | src/photism/photism.js:34-41 | a current best key that is not in the table is never replaced, because comparing against `undefined` is false |
| Photism.Score | src/photism/photism.js:22-37 | `noteAlikeness[n]` is `undefined` exactly when the table has no key `n`, and otherwise it is the score of that key's reference colour |
| Photism.Scan | src/photism/photism.js:34-41 | the second loop returns either the note it started from or a key of an entry it visited |
| Photism.ScanFromA | src/photism/photism.js:34-41 | the loop started from 'A' returns 'A' when the table has no 'A' key; otherwise it returns a nearest key, 'A' when 'A' is nearest, else the first nearest key in table order |
| Photism.ColorToNote | src/photism/photism.js:20-44 | with no 'A' key in the table, every colour is classified as 'A'; with an 'A' key, the result is a key of the table with minimal score; it is 'A' whenever 'A' is minimal, and otherwise the first minimal key in table order |
| Photism.ColorToNoteOwnColor | src/photism/photism.js:20-44 | if the table has an 'A' key and the reference colours are pairwise distinct, a reference colour is classified as its own key |
| Naming.FinalNote | src/scripts.js:107 | a name is the note plus "4" exactly when the note is not among the existing notes, and the note plus "5" exactly when it is |
| Naming.NameFrom | src/scripts.js:107-133 | naming notes one after another gives one name per note; each note gets octave 5 if it occurs among the notes already named (or the preset ones), and octave 4 otherwise |
| Naming.NameAll | src/scripts.js:89-133 | within one palette, a note gets octave 4 exactly when it is the note's first occurrence, and octave 5 exactly when it repeats an earlier one |
| Naming.NameShape | src/scripts.js:107 | every name is its note followed by a single octave digit, "4" or "5" |
| Naming.NamesCollide | src/scripts.js:107-108 | two positions get the same name exactly when they hold the same note and the earlier position is already a repeat, so a third occurrence overwrites the second's registry entry |
| Naming.ThirdOccurrenceCollides | src/scripts.js:107 | three samples classified as 'A' are named A4, A5, A5 |
| Naming.NamesOfOneNote | src/scripts.js:107-108 | the occurrences of any one note receive only the names note + "4" and note + "5", so at most two distinct names |
| Naming.AtMostTwoNamesPerNote | src/scripts.js:107-108 | in total, a palette produces at most twice as many distinct names as it has distinct notes |
| Naming.NameNotIndex | src/scripts.js:107-108 | a note that starts with a non-digit, such as a letter, yields a name that is not all digits, so it is never an array-index key that JavaScript would enumerate ahead of insertion order |
| NoteConfig.Find | src/scripts.js:108-110 | a name is found exactly when it is a key of the registry, and then at an entry with that name |
| NoteConfig.Register | src/scripts.js:108-122 | assigning `noteConfig[name]` keeps the keys distinct, appends a new key at the end and keeps an existing key's position, stores a disabled entry with the given colour, and changes no other entry |
| NoteConfig.RegisterAll | src/scripts.js:88-135 | registering a palette's names into `{}` gives the distinct names in order of first occurrence, all disabled, each holding the colour of its last registration |
| NoteConfig.RegisterAllStep | src/scripts.js:108-122 | registering one more name keeps key distinctness, first-occurrence order, all flags off, and last-registration colours |
| NoteConfig.SetEnabled | src/scripts.js:109-118 | setting the flag succeeds exactly when the name is registered, and fails with `UnknownName` otherwise; it keeps the keys and changes only that entry's flag |
| NoteConfig.Enable | src/scripts.js:109-113 | `enable` succeeds exactly on a registered name; afterwards the name is enabled, the keys are unchanged, other entries are untouched, and every colour is kept |
| NoteConfig.Disable | src/scripts.js:114-118 | `disable` succeeds exactly on a registered name; afterwards the name is disabled, the keys are unchanged, other entries are untouched, and every colour is kept |
| NoteConfig.Toggle | src/scripts.js:125-131 | a click flips the note's enabled state, succeeds exactly on a registered name, leaves the keys and other entries unchanged, and keeps every colour, the flipped entry's included |
| NoteConfig.ToggleTwice | src/scripts.js:125-131 | two clicks on the same swatch restore the registry exactly |
| NoteConfig.ActiveNotes | src/scripts.js:152-160 | the names `renderActiveNotes` collects are exactly the enabled keys, in key order, and no name appears twice |
| NoteConfig.BeforeDistinct | src/scripts.js:154-158 | with distinct keys, a list ordered by key position names no key twice |
| Page.RenderNotes | src/scripts.js:48-74 | the notation is blank exactly when there are no notes, and otherwise it is one voice per note in the given order |
| Page.RenderActiveNotesShows | src/scripts.js:152-163 | `renderActiveNotes` draws exactly the enabled notes, and leaves the notation blank exactly when no entry is enabled |
| Page.InitialPage | src/scripts.js:8 | on load the registry is `{}` and the notation blank, which is consistent, and clicking any name fails because nothing is registered |
| Page.EnableNote | src/scripts.js:109-113 | the `enable` closure succeeds exactly on a registered name, enables it, keeps the other entries and every colour, and leaves the notation showing exactly the enabled notes |
| Page.DisableNote | src/scripts.js:114-118 | the `disable` closure succeeds exactly on a registered name, disables it, keeps the other entries and every colour, and leaves the notation showing exactly the enabled notes |
| Page.EnableNoteShows | src/scripts.js:109-113 | after `enable` the note is drawn, and every other note is drawn exactly when it was enabled before |
| Page.DisableNoteHides | src/scripts.js:114-118 | after `disable` the note is not drawn, and every other note is drawn exactly when it was enabled before |
| Page.ClickSwatch | src/scripts.js:125-131 | a click flips the note's flag and changes nothing else: every other entry and every colour stay as they were; afterwards the note is drawn exactly when it was not enabled before, and every other note exactly when it was enabled before |
| Page.ClickTwice | src/scripts.js:125-131 | on a page whose notation matches its registry, two clicks on the same swatch restore the page exactly |
| Page.EnableDefaults | src/scripts.js:137-145 | the default loop keeps the keys distinct and in place, keeps every colour, never disables a note, and only enables keys it visits |
| Page.EnableDefaultsDone | src/scripts.js:140-145 | once three notes have been enabled, the rest of the loop changes nothing |
| Page.EnableDefaultsSpec | src/scripts.js:137-145 | the default loop enables exactly the keys at the first (3 - iter) positions from where it starts, touches no other flag or colour, and re-renders exactly when it enabled something |
| Page.ActiveNotesOfPrefix | src/scripts.js:152-160 | when exactly the first m keys are enabled, the active notes are those keys in order |
| Page.Swatches | src/scripts.js:91-94 | the colours taken from the palette are exactly its non-null slots, never more than the slots; there are none exactly when every slot is null |
| Page.SwatchesAppend | src/scripts.js:91-94 | the colours of two palettes joined are the colours of the first followed by those of the second, so colours keep slot order and multiplicity |
| Page.SwatchesSingle | src/scripts.js:91-94 | a null slot contributes no colour, and a colour slot contributes exactly its colour |
| Page.Classify | src/scripts.js:91-103 | one note per colour; every note is 'A' when the table has no 'A' key, and otherwise each note is a nearest key for its colour: 'A' whenever 'A' is nearest, else the first nearest key in table order, as `colorToNote` decides |
| Page.Populate | src/scripts.js:88-135 | the registry filled from `{}` holds the generated names in order of first occurrence, all disabled, each with the colour of its last registration |
| Page.RunAsWritten | src/scripts.js:87-145 | the callback as written keeps the registry's keys, enables exactly the first three, matches the notation to the registry when a key was registered, and keeps the previous notation when none was |
| Page.Run | src/scripts.js:87-145 | the corrected callback keeps the keys of the filled registry, enables exactly the first three, and always leaves a notation that matches the registry |
| Page.DefaultsOnFreshRegistry | src/scripts.js:137-145 | on a registry with nothing enabled, the loop enables exactly the first three keys (or all of them if fewer), and the rendered notation shows them |
| Page.RunResult | src/scripts.js:87-145 | after a palette with the corrected callback, the keys are the generated names in order of first occurrence; exactly the first three keys are enabled; the notation shows those keys; and the page is consistent |
| Page.EnableDefaultsIgnoresNotation | src/scripts.js:137-145 | the registry the default loop produces does not depend on the notation that was on the page |
| Page.RunAsWrittenResetsRegistry | src/scripts.js:88-89 | as written, the registry a palette leaves behind does not depend on the previous page, since the registry and the list of existing notes are reset |
| Page.RunDiscardsPrevious | src/scripts.js:87-145 | with the corrected callback, registry and notation both do not depend on the previous page; as written this fails for the notation (see Findings) |
| Page.RunAtMostTwoPerNote | src/scripts.js:107-108 | a palette registers at most twice as many names as it has distinct notes |
| Page.RunAsWrittenAgrees | src/scripts.js:87-145 | when at least one palette slot is non-null, the callback as written already ends with a notation that matches the registry |
| Page.RunAsWrittenKeepsStaleNotation | src/scripts.js:87-145 | when every palette slot is null, the callback as written empties the registry but keeps the previous notation |
| Page.StaleNotationExample | src/scripts.js:87-145 | a page showing A4, followed by an all-null palette: as written, the notation still shows A4 over an empty registry; corrected, it is blank |
| Page.TwoRedsAndABlue | src/scripts.js:87-145 | with reference colours red for 'A' and blue for 'B', the palette red, null, red, blue registers A4, A5, B4 in that order and draws all three |

## Left out

- The DOM, jQuery, CSS classes and swatch elements are not modelled. Neither is the element stored in each registry entry (`element`), nor the identity of the click closures.
- The image upload, `FileReader`, and drawing the image onto the canvas (`drawImageFit`) are left out. They are I/O with no effect on the notes.
- VexFlow rendering is reduced to a `Notation` value: blank, or the list of note names drawn as whole-note voices. Layout, clef drawing and sizes are not modelled.
- node-vibrant's palette extraction is an input: a sequence of optional colours in slot order. Which colours it returns is not modelled.
- The contents of `noteMap` are a parameter. The module holding the actual reference colours is not part of this model, so no statement depends on particular note colours.
- The `imageNotes` array is filled but never read, so it is not modelled.
- Note keys are plain strings. The registry keeps keys in insertion order, which matches JavaScript only when no name is a canonical array index. That holds when every table key starts with a letter (`Naming.NameNotIndex`), but the model does not require it. JavaScript's numeric-first ordering of index-like keys is not modelled.
- Photism.Distance: computed over exact reals. IEEE-754 rounding of the division by 3 is not modelled. `Photism.DistanceOrder` shows that the order of scores equals the order of integer sums, which an exact mean preserves.
- Photism.Mean: has no NaN channels and no non-numeric arguments. The channels are integers.
- The asynchronous nature of the palette promise is not modelled. A slow palette resolving after a newer one is outside the model.
- Synthesising sound for the notes is not in the modelled files, so it is not part of this model.
- A click handler of a swatch whose name was later re-registered toggles the new entry with the same name. The model identifies swatches by name only.

## Findings

| source | as written | input that shows it | evidently intended | confidence | as-written member | corrected member |
|---|---|---|---|---|---|---|
| src/scripts.js:88-145 | the palette callback resets `window.noteConfig` to `{}`, but only `enable` re-renders the notation, and a palette that registers no note never calls `enable` (`Page.RunAsWrittenKeepsStaleNotation`, `Page.StaleNotationExample`) | a page showing A4 enabled, then an image whose palette slots are all null | the notation is cleared along with the registry, so the staff always shows exactly the enabled notes (`Page.RunResult`) | low to medium, not executed | Page.RunAsWritten | Page.Run |
