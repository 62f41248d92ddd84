# Accordion buttons: layout, gesture tracking and voice bookkeeping in Dafny

This project models the core of a virtual chromatic button accordion. It has three parts:

- **Layout** (`layout.dfy`, from `src/utils/layout.js`). `GenerateLayout` builds the C-system
  button grid row by row, with nested loops that append one record per button. Each record holds
  an id `r<row>-c<col>`, its row and column, a MIDI note, a pitch-class label and a black-key
  flag. The note of a button is `48 + 3*c + [0,1,2,0,1][r] + 12*(startOctave-3)`. The label and
  the black flag are computed with JavaScript's truncated `%` (`JsRem12`). So a negative note
  that is not a multiple of 12 has label `undefined` (`None`), and no negative note is black.
- **Audio engine** (`audio.dfy`, from `src/utils/audio.js`). Class `AudioEngine` keeps the
  `activeNodes` table, a map from note to voice. A voice is an opaque fresh object standing in
  for the oscillator and gain pair. `Play` is a no-op while the note sounds, and `Stop` is a
  no-op for a silent note. `Played`, `Stopped` and `PlayAll` describe the table as values, and
  the lemmas are stated about them.
- **Gesture tracking** (`gesture_spec.dfy` and `accordion.dfy`, from
  `src/components/Accordion.jsx`). Class `Accordion.Component` holds three things: the pointer
  table (`pointersRef.current`), the highlighted notes (`activeNotes`) and an injected
  `AudioEngine`.
  - Each handler (`HandlePointerDown`, `HandlePointerMove`, `HandlePointerUp`) is proved to
    produce the state given by the matching transition of `GestureSpec`. `HandlePointerUp` is
    also the cancel and leave handler.
  - The hit test `getNoteFromEvent` is an input `Option<int>`.
  - React's functional `setActiveNotes` updates are applied one after another.
  - Main invariant (`Consistent`): the highlighted set equals the set of notes held in the pointer
    table. It is kept under any sequence of down, move, up, cancel and leave events, provided two
    things hold: hit tests report notes of rendered buttons, and a pointer-down comes only from a
    pointer the table does not already track.
  - For a component built on a silent engine, the engine's sounding notes always equal the
    highlighted set (`Valid`).

Where the code differs from a conventional description of the instrument, the model follows the
code:

- The label is the bare pitch-class name from one fixed table, with mixed sharp and flat
  spellings. It has no octave number and there is no sharp/flat choice.
- Non-positive dimensions are not rejected. They produce an empty grid.
- The engine has one sawtooth voice per note. It has no presets, no register octave list and no
  volume mapping.
- With start octave 2 the first button is MIDI note 36 (`StartOctaveTwo`), not 24.

## Model

| member | source | states |
|---|---|---|
| Layout.JsRem12 | src/utils/layout.js:54 | `midi % 12` as JavaScript computes it: truncated toward zero, between -11 and 11, congruent to midi, and equal to the Euclidean remainder for midi >= 0 |
| Layout.NoteLabel | src/utils/layout.js:51-56 | the label is defined exactly when midi >= 0 or midi is a multiple of 12; for midi >= 0 it is `NOTES[midi % 12]`; it is always one of the 12 fixed names |
| Layout.IsBlackKey | src/utils/layout.js:58-63 | black iff midi >= 0 and midi % 12 is in {1,3,6,8,10} (no negative note is black) |
| Layout.PitchClassStep | src/utils/layout.js:51-63 | for a non-negative note, note and note + 12 have the same label and black flag |
| Layout.PitchClassPeriodic | src/utils/layout.js:51-63 | for a non-negative note, label and black flag are unchanged by any number of octaves (proved by induction) |
| Layout.BlackKeysHaveAccidentals | src/utils/layout.js:51-63 | a non-negative note has a label, and it is black iff its label carries an accidental (two characters) |
| Layout.Decimal | src/utils/layout.js:38 | the `${n}` rendering of a row or column number: non-empty, digits only, a leading '0' only for 0, and it reads back as n |
| Layout.DecimalInjective | src/utils/layout.js:38 | distinct row or column numbers render to distinct decimal strings |
| Layout.ButtonId | src/utils/layout.js:38 | the id `r{r}-c{c}` parses back: 'r', then a digit run reading as r and ending at the first non-digit, then "-c" and the column digits |
| Layout.ButtonIdInjective | src/utils/layout.js:38 | equal ids `r{r}-c{c}` imply equal row and column |
| Layout.NoteAt | src/utils/layout.js:32-35 | the note of (r, c) is 48 + 3c + (r mod 3) + 12(startOctave-3): the row offsets cycle through 0, 1, 2 |
| Layout.ButtonAt | src/utils/layout.js:32-45 | the record for (r, c) has boardRow r, boardCol c and note 48 + 3c + rowNoteOffsets[r] + 12(startOctave-3) |
| Layout.ColumnStep | src/utils/layout.js:32 | the next button along a row is 3 semitones higher |
| Layout.RowStep | src/utils/layout.js:18 | rows 0, 1, 2 at the same column are one semitone apart |
| Layout.DuplicateRows | src/utils/layout.js:16-18 | rows 3 and 4 repeat the notes of rows 0 and 1 |
| Layout.OctaveShift | src/utils/layout.js:35 | raising startOctave by one raises every note by 12; for a non-negative note it keeps the black flag and the label |
| Layout.StartOctaveTwo | src/utils/layout.js:32-35 | with start octave 2, button r0-c0 is note 36, labelled "C", white |
| Layout.Grid | src/utils/layout.js:26-47 | the buttons of the outer loop's first `rows` passes, row after row; there are rows*cols of them |
| Layout.GridPlaced | src/utils/layout.js:26-47 | the row-by-row grid has rows*cols buttons and index i holds button (i / cols, i % cols) |
| Layout.GenerateLayout | src/utils/layout.js:9-49 | returns max(rows,0)*max(cols,0) buttons in row-major order: index r*numCols+c holds the record for (r, c), and ids are pairwise distinct |
| Layout.StandardBoardNotes | src/components/Accordion.jsx:12-14 | the 5 x 14 board from octave 3 carries exactly the notes 48..89 |
| Audio.Played | src/utils/audio.js:23-28 | after play, the note has an entry; an existing entry is kept as it is, otherwise the note gets the new voice; other notes are unchanged |
| Audio.Stopped | src/utils/audio.js:30-44 | after stop, the note has no entry; a silent note leaves the table unchanged; other entries are unchanged |
| Audio.PlayIdempotent | src/utils/audio.js:24-26 | a second play of the same note changes nothing |
| Audio.PlaysOfSoundingNote | src/utils/audio.js:24-26 | any number of plays of a sounding note leave the table unchanged |
| Audio.RepeatedPlaysKeepFirstVoice | src/utils/audio.js:23-28 | repeated plays of a silent note leave exactly one entry, the first play's voice, and nothing else changes |
| Audio.PlayThenStop | src/utils/audio.js:23-44 | play followed by stop leaves the table as a stop alone would |
| Audio.AudioEngine.constructor | src/utils/audio.js:9-15 | the engine starts with no active voices |
| Audio.AudioEngine.Play | src/utils/audio.js:23-28 | the table becomes Played(old table, note, v); v is a fresh voice exactly when the note was silent |
| Audio.AudioEngine.Stop | src/utils/audio.js:30-44 | the table becomes Stopped(old table, note) |
| Audio.AudioEngine.PlaySynth | src/utils/audio.js:46-70 | the note is mapped to a fresh voice, overwriting any old entry, and no other entry changes |
| GestureSpec.Lookup | src/components/Accordion.jsx:38 | `pointersRef.current.get(id)`: defined iff the pointer is tracked, and then its note |
| GestureSpec.Differs | src/components/Accordion.jsx:40 | `newNote !== oldNote`: true unless the hit is a note and the pointer holds that same note, so no hit (null) and no entry (undefined) differ |
| GestureSpec.PlayNote | src/components/Accordion.jsx:72-87 | the pointer table is untouched; a note on the board becomes highlighted and sounding, a note on no button changes nothing, and no other note changes |
| GestureSpec.StopNote | src/components/Accordion.jsx:89-107 | the pointer table is untouched, notes are only removed, and nothing changes while another pointer holds the note |
| GestureSpec.PointerDown | src/components/Accordion.jsx:16-25 | no hit changes nothing; a hit maps the pointer to that note; no note is released; a board hit is highlighted and sounding |
| GestureSpec.PointerMove | src/components/Accordion.jsx:27-51 | an untracked hover is ignored; no hit leaves the pointer untracked; a hit maps a tracked or pressed pointer to that note; entries of other pointers are unchanged |
| GestureSpec.PointerUp | src/components/Accordion.jsx:53-60 | the entry of that pointer is removed and notes are only released |
| GestureSpec.Step | src/components/Accordion.jsx:124-128 | an event runs the handler it is bound to (cancel and leave run the up handler); it leaves the entries of other pointers alone and keeps the engine agreeing |
| GestureSpec.FindByNote | src/components/Accordion.jsx:78 | finds a button iff some button has the note; the result has that note and is the first such button |
| GestureSpec.StopNoteEffect | src/components/Accordion.jsx:89-107 | stopNote never changes the pointer table; it unhighlights and silences the note iff no other pointer holds it; other notes are unchanged |
| GestureSpec.HandlersKeepEngineAgreement | src/components/Accordion.jsx:72-107 | every handler keeps the engine's sounding notes equal to the highlighted set |
| GestureSpec.DownKeepsConsistent | src/components/Accordion.jsx:16-25 | pointer-down from an untracked pointer keeps highlighted == held notes |
| GestureSpec.MoveKeepsConsistent | src/components/Accordion.jsx:27-51 | pointer-move keeps highlighted == held notes |
| GestureSpec.UpKeepsConsistent | src/components/Accordion.jsx:53-60 | pointer-up, cancel or leave keeps highlighted == held notes |
| GestureSpec.Chording | src/components/Accordion.jsx:53-60 | two pointers on one note: it starts sounding on the first press only, keeps sounding after the first release, and the state after both releases equals the starting state |
| GestureSpec.Glissando | src/components/Accordion.jsx:40-47 | a move from note a to note n re-points the pointer at n and sounds n; a stays on iff another pointer holds it; no other note changes |
| GestureSpec.MoveOnSameNote | src/components/Accordion.jsx:40 | a move that stays on the note this pointer already holds changes nothing |
| GestureSpec.MoveOffBoard | src/components/Accordion.jsx:47-49 | a move onto no button deletes the entry of that pointer and releases its note under the last-holder rule |
| GestureSpec.UntrackedHoverIgnored | src/components/Accordion.jsx:35 | a move of an untracked pointer with no button pressed is ignored |
| GestureSpec.UntrackedUpIgnored | src/components/Accordion.jsx:55-59 | up, cancel or leave of an untracked pointer is a no-op |
| GestureSpec.TrackedDownLeavesStuckNote | src/components/Accordion.jsx:20-23 | a second down from a pointer that already holds a note leaves the old note highlighted and sounding with no holder |
| GestureSpec.RunKeepsInvariants | src/components/Accordion.jsx:124-128 | after any sequence of down, move, up, cancel and leave events in which hits are board notes and downs come from untracked pointers, highlighted == held notes == sounding notes |
| Accordion.StillHeld | src/components/Accordion.jsx:91-97 | the loop over the pointer entries answers true iff a pointer other than the given one holds the note |
| Accordion.Component.constructor | src/components/Accordion.jsx:5-14 | starts with no pointers and no highlighted notes; the layout is the 5 x 14 grid from octave 3; the board notes are exactly 48..89 |
| Accordion.Component.PlayNote | src/components/Accordion.jsx:72-87 | state becomes GestureSpec.PlayNote of the old state; the engine still agrees; no sounding voice is replaced |
| Accordion.Component.StopNote | src/components/Accordion.jsx:89-107 | state becomes GestureSpec.StopNote of the old state; the engine still agrees |
| Accordion.Component.HandlePointerDown | src/components/Accordion.jsx:16-25 | state becomes PointerDown of the old state; keeps the main invariant for an untracked pointer and a board hit |
| Accordion.Component.HandlePointerMove | src/components/Accordion.jsx:27-51 | state becomes PointerMove of the old state; keeps the main invariant for a board hit |
| Accordion.Component.HandlePointerUp | src/components/Accordion.jsx:53-60 | state becomes PointerUp of the old state; keeps the main invariant |

## Left out

- midiToFreq and the `frequency` field of a button (src/utils/layout.js:65-67, src/utils/audio.js:4-6): floating-point `Math.pow`. `Play` takes no frequency.
- Web Audio graph construction, envelopes and scheduling (`currentTime`, gain ramps, `source.stop(now + 0.1)`): foreign platform calls with timed floating point. A voice is an opaque object.
- `init` (context resume) and `setVolume`, and the `masterGain` node: asynchronous or float-only platform state.
- `getNoteFromEvent` (`document.elementFromPoint`, `parseInt` of `data-note`): a browser lookup. It is an `Option<int>` input, assumed to name a rendered button's note where the main invariant is concerned.
- `e.preventDefault()` and the `audio.init()` call inside the pointer-down handler: platform calls.
- Render geometry and styles of the component: presentation.
- Settings panel, App shell with persistence and split screen, image viewer and the mobile WebView shell: outside the core.
- Accordion.StillHeld: visits the pointer entries in an arbitrary order rather than the map's insertion order. The early-exit answer does not depend on the order.
- Layout.GenerateLayout: the default arguments `numRows = 5, numCols = 13, startOctave = 3` (src/utils/layout.js:9) are not modelled; the only caller passes all three (src/components/Accordion.jsx:13).
- Accordion.Component.constructor: requires a silent engine. The source shares one module-level engine for the whole session (src/utils/audio.js:77); a component remounted while a note sounds starts with an empty pointer table and highlight set while the engine still holds that voice, and the model does not capture that state.
- Layout.GenerateLayout: rows past the fifth are not modelled, because `rowNoteOffsets` has five entries and the source computes NaN notes for them. So numRows <= 5 is required.
