# Gemstone editing and playback core in Dafny

This project models, and proves properties of, the bookkeeping under Gemstone's pygame and PyQt front ends:

- **Frame animations** (`gemstone/animation_manager.py`):
  - a `Frame` is a surface, a duration in milliseconds and a pivot;
  - an `Animation`'s frame list is edited in place by append/insert, lenient remove and duplicate-after;
  - an `AnimationInstance`'s `update` loop walks the frames, wrapping or stopping;
  - the `AnimationManager` registry files animations by name, and writes and reads them as JSON manifests.
- **The pixel editor** (`gemstone/editor.py`): the canvas grid, the four tools, the stack-based flood fill, screen-to-cell mapping, zoom cycling, and the snapshot undo/redo stacks capped at 50.
- **The sprite editor** (`gemstone/sprite_creator.py`): the breadth-first flood fill with a visited set, the canvas branch of the mouse handler, the filename prompt and its `.png` normalisation.
- **The animation editor** (`gemstone/animation_editor.py`): the frame list with its selection, navigation, the frame rate clamped to [1, 60], the playback tick, and the horizontal strip-sheet export.
- **The step sequencer** (`gemstone/daw.py`): `Config`, the boolean note grid and its toggle/set/clear, the row-to-MIDI mapping, the per-row resize when the step count changes, and the note-off step.
- **Grid helpers** (`gemstone/util.py`): `clone_grid` and the half-open `within_rect`.

Classes whose fields the source updates in place are Dafny classes with `modifies` clauses. Loops in the source are `while`/`for` loops with invariants, proved against specification functions:

- `Playback.Play` for the animation update;
- `Regions.Recoloured` (the 4-connected region of the start cell, recoloured) for both flood fills;
- `Pixels.StripSheet` for the exporter;
- `Animations.Decode` and `Animations.Entries` for the manifest reader and writer;
- `Daw.Resized` for the step-count change.

Surfaces are values (`Pixels.Surface`: a width, a height and rows of RGBA pixels). A decoded JSON manifest is an `Animations.Document`. The image files a save writes, or a load reads, are a map from file name to surface.

Python's `//` and `%` with a positive divisor agree with Dafny's `/` and `%`, and that is the only way the source uses them. Python's negative list indices and slices are written out where the source can meet them (`Daw.Index`, `Daw.Resized`, `Lists.InsertPos`). Python integers are unbounded, like Dafny's, so there is no wrap-around to model.

## Model

| member | source | states |
|---|---|---|
| Util.CloneGrid | gemstone/util.py:27-28 | the copy has the same row count, row lengths and cells as the original |
| Util.CloneGridEqual | gemstone/util.py:27-28 | a clone equals the grid it was taken from |
| Util.CloneIsolation | gemstone/util.py:27-28 | a clone with one cell (r, c) written holds the new value there and differs from the original grid nowhere else |
| Util.EmptyRectContainsNothing | gemstone/util.py:30-33 | a rectangle of non-positive width or height contains no point |
| Util.RectIsHalfOpen | gemstone/util.py:30-33 | a rectangle of positive size contains its origin and excludes its right and bottom edges |
| Lists.InsertPos | gemstone/animation_manager.py:26 | list.insert's index normalisation: a negative index counts from the end, and the result is clamped to [0, len] |
| Lists.Inserted | gemstone/animation_manager.py:26 | inserting at k puts x at k, keeps the elements before k, and shifts the later ones right by one |
| Lists.Removed | gemstone/animation_manager.py:30 | deleting at k keeps the elements before k and shifts the later ones left by one |
| Lists.InsertAtEnd | gemstone/animation_manager.py:23-26 | inserting at the length is appending |
| Lists.RemoveInserted | gemstone/animation_manager.py:26-30 | removing what was just inserted gives the list back |
| Lists.InsertedMultiset | gemstone/animation_manager.py:26 | an insert adds exactly one occurrence of the new element and loses nothing |
| Animations.Animation.constructor | gemstone/animation_manager.py:17-20 | a new animation has its name, its loop flag and no frames |
| Animations.Animation.AddFrame | gemstone/animation_manager.py:22-26 | with no index the frame is appended; with an index it is inserted at list.insert's normalised position |
| Animations.Animation.RemoveFrame | gemstone/animation_manager.py:28-30 | an in-range index deletes exactly that frame and keeps the order of the rest; any other index changes nothing |
| Animations.Animation.DuplicateFrame | gemstone/animation_manager.py:32-37 | an in-range index inserts a frame equal to frame i (same surface value, duration and pivot) at i + 1; any other index changes nothing |
| Animations.AnimationInstance.constructor | gemstone/animation_manager.py:44-48 | a new instance is bound to its animation, at frame 0, with nothing accumulated, playing |
| Animations.AnimationInstance.Reset | gemstone/animation_manager.py:50-53 | current = 0, elapsed = 0, playing |
| Animations.AnimationInstance.SetAnimation | gemstone/animation_manager.py:55-57 | rebinds the animation and resets |
| Animations.AnimationInstance.Update | gemstone/animation_manager.py:59-72 | nothing changes when paused or without frames; otherwise the new (current, elapsed, playing) is what Playback.Play gives for the old frame and the old time plus dt |
| Animations.AnimationInstance.GetSurface | gemstone/animation_manager.py:74-77 | None exactly when there are no frames, otherwise the current frame's surface |
| Playback.Play | gemstone/animation_manager.py:62-72 | where the update loop stops: a frame index in range; a playing clock has less time than its frame's duration; a looping animation never stops; a stopped one is on its last frame |
| Playback.PlayWithinFrame | gemstone/animation_manager.py:63 | time short of the current frame's duration only accumulates |
| Playback.TwoFrameLoop | gemstone/animation_manager.py:62-68 | durations [100, 50], looping: 120 ms gives frame 1 with 20 ms, then 40 ms more gives frame 0 with 10 ms |
| Playback.NonLoopingStops | gemstone/animation_manager.py:69-72 | without looping, running past the last frame stops on it, not playing, keeping the remainder of the last subtraction |
| Playback.NonLoopingStopsAfterRest | gemstone/animation_manager.py:62-72 | without looping, from any frame: time at least the rest of the durations stops on the last frame, not playing, with the surplus kept; less time leaves it playing |
| Playback.PlayRestOfCycle | gemstone/animation_manager.py:62-68 | looping playback is periodic: from any frame, the rest of the cycle plus t ends where t ends from frame 0 |
| Playback.PlayFullCycle | gemstone/animation_manager.py:62-68 | adding one whole cycle of time at frame 0 changes nothing |
| Playback.PlayCycles | gemstone/animation_manager.py:62-68 | adding any whole number k of cycles of time at frame 0 changes nothing |
| Animations.AnimationManager.constructor | gemstone/animation_manager.py:80-81 | the registry starts empty |
| Animations.AnimationManager.Register | gemstone/animation_manager.py:83-84 | files the animation under its name, replacing any previous entry, and keeps every key naming its own animation |
| Animations.AnimationManager.Get | gemstone/animation_manager.py:86-87 | None exactly for an unregistered name, otherwise the registered animation |
| Animations.AnimationManager.Unregister | gemstone/animation_manager.py:89-91 | removes that name only; an absent name changes nothing |
| Animations.AnimationManager.SaveAnimationJson | gemstone/animation_manager.py:94-136 | an unregistered name is the UnknownAnimation error (the ValueError); otherwise the result is the manifest and image files Encode gives for the animation |
| Animations.WriteFrames | gemstone/animation_manager.py:114-133 | the frame loop records entry i for frame i, in order (with a sheet, a rect only when asked to: the code as written never records one), and, without a sheet, saves frame i's surface as its file |
| Animations.AnimationManager.LoadAnimationJson | gemstone/animation_manager.py:138-170 | fails exactly when Decode fails, with the same error and the registry unchanged; otherwise it returns a fresh animation holding Decode's name, loop flag and frames, and registers it |
| Animations.Crop | gemstone/animation_manager.py:154-156 | the (w, h) surface cut at (x, y) from the sheet: sheet pixels where they exist, transparent elsewhere |
| Animations.DecodeEntry | gemstone/animation_manager.py:151-167 | an entry yields a frame exactly when it has a rect with a sheet loaded, or a file; duration defaults to 100 and pivot to (0, 0); a file entry succeeds exactly when its image exists, and yields that image |
| Animations.DecodeErrorPersists | gemstone/animation_manager.py:151-167 | once an entry fails, the whole read fails with that entry's error |
| Animations.DecodedCount | gemstone/animation_manager.py:151-167 | a successful read yields one frame per usable entry; the other entries are skipped |
| Animations.SheetOf | gemstone/animation_manager.py:147-149 | a manifest without "spritesheet" loads no sheet; one with it fails exactly when the sheet image is missing |
| Animations.NatToString | gemstone/animation_manager.py:126 | the f-string digits of a number: non-empty, all decimal digits |
| Animations.NatToStringInjective | gemstone/animation_manager.py:126 | different numbers are written differently |
| Animations.FrameFileName | gemstone/animation_manager.py:126 | f"{name}_frame_{i}.png" starts with the name and ends in ".png" |
| Animations.FrameFileNameInjective | gemstone/animation_manager.py:126 | different frames of one animation are saved to different files |
| Animations.WrittenFileHolds | gemstone/animation_manager.py:125-128 | every frame's file is written and holds that frame's surface |
| Animations.EntryFor | gemstone/animation_manager.py:117-133 | a sheet entry holds the index, duration and pivot, plus the cell rect when rects are written; a file entry holds the file name, duration and pivot |
| Animations.EntriesAt | gemstone/animation_manager.py:117-133 | entry i of a saved manifest is the entry recorded for frame i |
| Animations.Basename | gemstone/animation_manager.py:115 | os.path.basename: the suffix of the path after its last '/' |
| Animations.SaveLoadRoundTrip | gemstone/animation_manager.py:123-133 | saving without a spritesheet and reading back with the written images gives the same name, loop flag and frames |
| Animations.SkippedEntries | gemstone/animation_manager.py:165-167 | entries with neither "rect" nor "file" decode to no frames |
| Animations.DecodeSkipped | gemstone/animation_manager.py:147-167 | a manifest with its sheet present whose entries name neither a cell nor a file reads back with no frames |
| Animations.IndexOnlyEntries | gemstone/animation_manager.py:117-122 | the sheet entries written as the code stands carry neither "rect" nor "file" |
| Animations.SheetManifestAsWrittenLosesFrames | gemstone/animation_manager.py:114-122 | as written, a manifest saved with a spritesheet reads back with the right name and loop flag and no frames |
| Animations.SheetManifestAsWrittenCounterexample | gemstone/animation_manager.py:114-122 | a one-frame animation saved with a sheet, as written, does not come back |
| Animations.SheetSaveLoadRoundTrip | gemstone/animation_manager.py:95-98 | with rects recorded, saving with a spritesheet path and reading back against the packed strip sheet gives the same name, loop flag and frames, when all frames share the first frame's size |
| Animations.CropOfStrip | gemstone/animation_manager.py:152-156 | cutting cell i out of a strip sheet of equally sized frames gives frame i back |
| Pixels.OffsetIsProduct | gemstone/animation_editor.py:98 | the running offset of frame i is i * frame_w |
| Pixels.StripSheet | gemstone/animation_editor.py:92-98 | the sheet after k blits is frame_w * n wide and frame_h high |
| Pixels.StripPlacesFrames | gemstone/animation_editor.py:97-98 | frame i occupies columns [i * frame_w, (i + 1) * frame_w): sheet pixel (r, i * frame_w + j) is frame i's pixel (r, j) |
| Regions.RegionCells | gemstone/editor.py:244-245 | the region holds only target cells, and holds its start exactly when the start is an in-bounds target cell |
| Regions.RegionWithinClosed | gemstone/sprite_creator.py:364-368 | a set that is closed under target neighbours and holds the start contains the whole region |
| Regions.RecolourSameColour | gemstone/sprite_creator.py:345-347 | recolouring a region with its own colour changes nothing |
| Regions.RecolourIneligibleStart | gemstone/editor.py:244-245 | a start outside the canvas or not holding target recolours nothing |
| Editor.EditorScene.constructor | gemstone/editor.py:28-44 | a transparent canvas_h x canvas_w grid, primary = the first palette colour, pencil, zoom index 0, empty stacks, canvas at (20, 60) |
| Editor.EditorScene.ClearCanvas | gemstone/editor.py:48-49 | canvas_h rows of canvas_w transparent cells |
| Editor.EditorScene.CycleZoom | gemstone/editor.py:141 | the zoom index moves to the next level and wraps to 0, staying in range |
| Editor.EditorScene.ScreenToGrid | gemstone/editor.py:213-219 | the floor-divided cell coordinates clamped onto the canvas: always 0 <= x <= canvas_w - 1 and 0 <= y <= canvas_h - 1 |
| Editor.EditorScene.PaintAt | gemstone/editor.py:221-237 | no effect off the canvas; pencil writes primary (left) or transparent (right) to that cell only; eraser writes transparent; fill recolours the start's region; the eyedropper only sets primary |
| Editor.EditorScene.FloodFill | gemstone/editor.py:239-247 | with target != repl the stack loop terminates and the grid is the old grid with exactly the start's 4-connected target region recoloured |
| Editor.EditorScene.PushUndo | gemstone/editor.py:250-254 | pushes a copy of the grid, drops the oldest snapshot beyond 50, empties the redo stack |
| Editor.EditorScene.Undo | gemstone/editor.py:256-259 | no-op on an empty stack; otherwise the grid becomes the popped snapshot and the old grid goes on the redo stack |
| Editor.EditorScene.Redo | gemstone/editor.py:261-264 | the mirror image of Undo |
| Editor.UndoThenRedo | gemstone/editor.py:256-264 | undo followed by redo restores the grid and both stacks |
| SpriteCreator.SpriteEditor.constructor | gemstone/sprite_creator.py:6-41 | a white grid_size x grid_size grid, black colour, pencil, canvas at (MARGIN, MARGIN), no prompt |
| SpriteCreator.SpriteEditor.ClearCanvas | gemstone/sprite_creator.py:335-336 | every one of the grid_size x grid_size cells white |
| SpriteCreator.SpriteEditor.StartInputMode | gemstone/sprite_creator.py:338-340 | opens the prompt in that mode with an empty name |
| SpriteCreator.SpriteEditor.HandleCanvasClick | gemstone/sprite_creator.py:97-109 | off the canvas nothing changes; on it the cell is ((y - y0) // cell, (x - x0) // cell), which lies in the grid, and pencil writes the colour, eraser white, the picker only sets the colour, fill recolours the region |
| SpriteCreator.ClickInsideCanvas | gemstone/sprite_creator.py:98-101 | a click inside the canvas rectangle always lands on a grid cell |
| SpriteCreator.SpriteEditor.FloodFill | gemstone/sprite_creator.py:345-368 | equal colours leave the grid alone; otherwise the queue loop terminates and recolours exactly the in-bounds 4-connected target region of the start |
| SpriteCreator.QueueNeighbours | gemstone/sprite_creator.py:364-368 | queues exactly the unvisited neighbours of the cell |
| SpriteCreator.SpriteEditor.HandleTextInput | gemstone/sprite_creator.py:129-143 | Return closes the prompt and requests a save or load of the stripped name only when it is not blank; Backspace drops the last character; Escape closes the prompt; other keys append only while the name is shorter than 20 |
| SpriteCreator.StripKeepsMiddle | gemstone/sprite_creator.py:131-135 | str.strip keeps a stretch of the name that neither starts nor ends with whitespace, with only whitespace removed around it |
| SpriteCreator.StripBlank | gemstone/sprite_creator.py:131 | the stripped name is empty exactly when the name is all whitespace |
| SpriteCreator.StripIdempotent | gemstone/sprite_creator.py:131-135 | stripping twice is stripping once |
| SpriteCreator.WithPngSuffix | gemstone/sprite_creator.py:378-379 | the result ends in ".png", extends the name by at most four characters, and is the name itself when it already ends in ".png" |
| SpriteCreator.PngSuffixIdempotent | gemstone/sprite_creator.py:389-390 | normalising twice equals normalising once |
| AnimationEditor.FrameSide | gemstone/animation_editor.py:70-71 | min(n, 256) |
| AnimationEditor.FramePeriod | gemstone/animation_editor.py:45 | 1000 // rate lies in [16, 1000] for a rate in [1, 60] |
| AnimationEditor.FramePeriodMonotone | gemstone/animation_editor.py:45 | a faster rate never shows a frame longer |
| AnimationEditor.Step | gemstone/animation_editor.py:31-34 | with frames, a step of +1 or -1 wraps round the list and stays in range; with none the selection is kept |
| AnimationEditor.StepAsWritten | gemstone/animation_editor.py:31-34 | the handler's (current + delta) % len(frames): ZeroDivisionError exactly when there are no frames, otherwise Step |
| AnimationEditor.NavigateAfterDeletingLastFrame | gemstone/animation_editor.py:31-34 | deleting the only frame and then pressing Right divides by zero |
| AnimationEditor.StepBackUndoesStep | gemstone/animation_editor.py:31-34 | Left undoes Right and Right undoes Left |
| AnimationEditor.AdvancedIsOffset | gemstone/animation_editor.py:32 | k advances move the selection k places round the list |
| AnimationEditor.FullCycle | gemstone/animation_editor.py:46 | advancing once per frame comes back to the same frame |
| AnimationEditor.AnimationEditorScene.constructor | gemstone/animation_editor.py:6-19 | rate 6, paused, one blank white frame of the clamped canvas size, selected |
| AnimationEditor.AnimationEditorScene.AddFrame | gemstone/animation_editor.py:68-75 | appends a white frame of at most 256 a side and selects it |
| AnimationEditor.AnimationEditorScene.DuplicateFrame | gemstone/animation_editor.py:77-81 | with frames, inserts a copy of the selected frame after it and selects the copy; with none, no-op |
| AnimationEditor.AnimationEditorScene.DeleteFrame | gemstone/animation_editor.py:83-86 | with frames, removes the selected frame and selects max(0, current - 1); with none, no-op |
| AnimationEditor.AnimationEditorScene.ExportSpritesheet | gemstone/animation_editor.py:88-98 | no frames: nothing; otherwise the strip sheet frame_w * n wide and frame_h high with frame i blitted at (i * frame_w, 0) |
| AnimationEditor.AnimationEditorScene.Update | gemstone/animation_editor.py:42-47 | while playing with frames, accumulates dt; at 1000 // rate or more it advances one frame (wrapping) and restarts the accumulator |
| AnimationEditor.AnimationEditorScene.HandleKey | gemstone/animation_editor.py:21-40 | each key's effect: play/pause, add, duplicate, delete, ±1 navigation, the rate clamped to [1, 60], export; the selection invariant and the rate bounds are kept |
| Daw.Index | gemstone/daw.py:32-36 | the position a Python index names, counting from the end when negative |
| Daw.RowToMidi | gemstone/daw.py:44-45 | the last row plays base_midi_note, and every row plays a note in [base, base + rows) |
| Daw.RowToMidiDecreasing | gemstone/daw.py:44-45 | a lower row plays a strictly lower note |
| Daw.MidiToRow | gemstone/daw.py:44-45 | the inverse of row_to_midi: the row whose note is the given one |
| Daw.MidiToRowInverse | gemstone/daw.py:44-45 | every row is the row of its own note |
| Daw.OffStep | gemstone/daw.py:260 | (c + length) % max(1, cols) lies in [0, max(1, cols)); it is c + length inside the pattern, and wraps once past its end |
| Daw.OffStepFullPattern | gemstone/daw.py:260 | a note lasting the whole pattern is released on the step where it started |
| Daw.Toggled | gemstone/daw.py:33 | exactly cell (r, c) is negated |
| Daw.ToggleTwice | gemstone/daw.py:32-33 | toggling twice restores the grid |
| Daw.Resized | gemstone/daw.py:144-147 | a row padded with False to val cells, or cut by del row[val:]; its first min(old, new) cells are kept |
| Daw.ResizeBack | gemstone/daw.py:144-147 | growing a row and setting the step count back restores it |
| Daw.Sequencer.constructor | gemstone/daw.py:28-30 | cfg.rows rows of cfg.cols cells, all False |
| Daw.Sequencer.Toggle | gemstone/daw.py:32-33 | negates exactly the addressed cell, Python negative indices included |
| Daw.Sequencer.Set | gemstone/daw.py:35-36 | sets exactly the addressed cell |
| Daw.Sequencer.Clear | gemstone/daw.py:38-39 | rows x cols, all False |
| Daw.Sequencer.OnStepsChange | gemstone/daw.py:137-147 | the same step count changes nothing; another one is stored in the config and every row is resized to it, keeping its first min(old, new) cells |

## Left out

- Rendering, layout, fonts, menus, the event loops and the UI buttons are not modelled. This covers every `draw*`, `run`, `compute_layout` and `create_ui_buttons`, the button part of the sprite editor's `handle_mouse`, the tool keys of `handle_key_input`, and the editor's `handle_event` dispatch.
- File and image I/O become values. JSON files are `Document`s, image files are a name-to-surface map, and directory creation and `os.path.join` against a base directory are dropped. `save_png`/`load_png` and the pixel copies in `save_sprite`/`load_sprite` are not modelled.
- Blending is not modelled. `Pixels.Blit` and `Animations.Crop` copy pixels; pygame's per-pixel alpha blending when the reader blits from a `convert_alpha` sheet onto an SRCALPHA surface is not captured.
- Util.CloneIsolation does not capture what `clone_grid` is for. Grids are `seq<seq<T>>` values, so a clone can never share rows with its original, and the lemma would hold as well for a shallow `grid[:]`. The row sharing that `clone_grid` prevents, and that `push_undo` relies on to keep painting out of its snapshots, is not modelled.
- Frames and surfaces are values. Aliasing between Python objects is not captured, such as two animations sharing one `Frame`, or a `Surface` and its `copy()`.
- `gemstone/daw.py` beyond the grid is not modelled: MIDI file building, port sends, playback timers and `_advance_step` other than its off-step expression. From about line 166 the file's indentation is broken, so that part has no coherent behaviour to state. Rebuilding the widgets in `on_steps_change` is also left out.
- `gemstone/pixel_editor.py`, the 3-D level editor, `engine.py`, `menu.py` and `config.py` are not part of this model. `pixel_editor.py` calls methods `Animation` does not have.
- Animations.AnimationInstance.Update requires positive durations when the animation loops, because with a zero or negative duration the source's loop never ends. It also requires `current` to name a frame, as the source indexes with it.
- Editor.EditorScene.FloodFill requires `target != repl`, because the source never terminates otherwise; `paint_at` guards that case.
- Daw.Sequencer.Toggle requires the indices to name a cell, because out of range Python raises IndexError and that error path is not modelled. Daw.Sequencer.Set has the same requirement for the same reason.
- Daw.RowToMidi is a free function. The source declares `row_to_midi` inside `Sequencer` without `self`.
- SpriteCreator.SpriteEditor.HandleTextInput requires the prompt to be open, because the source calls it only in input mode.
- SpriteCreator.IsSpace lists the characters Python's `str.strip` removes. Unicode normalisation is not modelled.
- Animations.AnimationManager.SaveAnimationJson states the save with rects recorded (`Animations.Encode`), not the code as written; see Findings.
- Animations.WriteFrames writes sheet entries with rects when SaveAnimationJson asks it to, as it does. The code as written never records them; see Findings.
- AnimationEditor.AnimationEditorScene.HandleKey keeps the selection when Right or Left is pressed with no frames, where the code as written raises ZeroDivisionError; see Findings.

## Findings

| source | as written | input that shows it | evidently intended | confidence | as-written member | corrected member |
|---|---|---|---|---|---|---|
| gemstone/animation_manager.py:114-122 | with a spritesheet path, each frame entry records only "index", "duration" and "pivot". Its docstring (lines 95-98) says rects are recorded, and the reader (lines 151-167) only turns entries with "rect" or "file" into frames | a one-frame animation "walk" saved with spritesheet "walk.png", then read back with that image: it returns no frames | each entry records its cell `[i * w, 0, w, h]` of the strip sheet, so a load against the packed sheet restores every frame | high, not executed | Animations.EncodeAsWritten, Animations.SheetManifestAsWrittenCounterexample | Animations.Encode, Animations.SheetSaveLoadRoundTrip |
| gemstone/animation_editor.py:31-34 | Right and Left compute `(current ± 1) % len(self.frames)`, which divides by zero when the list is empty | delete the only frame (lines 83-86), then press Right | with no frames, keep the selection, as `update` does by checking `len(self.frames) > 0` (line 43) | high, not executed | AnimationEditor.StepAsWritten, AnimationEditor.NavigateAfterDeletingLastFrame | AnimationEditor.Step, AnimationEditor.StepBackUndoesStep |
