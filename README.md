# FreshAnimator core, modelled in Dafny

FreshAnimator is a small frame-by-frame drawing tool. A window holds a list of
800x600 RGB frames and a current frame index. The user draws freehand strokes
on the current frame, or erases with white. Frames can be added, deleted,
stepped through and played back. The whole list is saved as a document of
base 64 strings, one per frame, and can be loaded again.

This project models the part of `class FreshAnimator` that keeps state:

- the frame list and the current index (`new_frame`, `delete_frame`,
  `next_frame`, `prev_frame`, one tick of `play_animation`);
- the tool settings (`increase_brush`, `decrease_brush`, `toggle_eraser`,
  `set_draw_mode`, `toggle_onion_skin`);
- the stroke in progress (`start_draw`, `draw`, `reset_draw`);
- the encode loop of `save_animation` and the decode loop of `load_animation`,
  with base 64 as defined in section 4 of RFC 4648.

Files:

- `wrappers.dfy`: `Option` and `Result`.
- `bytes.dfy`: the `byte` type (an octet).
- `base64.dfy`: the RFC 4648 alphabet, `Encode` and a strict `Decode`, with the
  round trip proved in both directions.
- `raster.dfy`: a frame as its `W*H*3` bytes in row-major order, the blank
  (white) frame, and `Paint`, which sets the covered pixels to one colour.
- `persistence.dfy`: the saved document, decoding one entry into a frame, and
  where a load stops.
- `session.dfy`: the window's state as a value (`Model`), the invariants, and
  one function for the state after each operation.
- `properties.dfy`: lemmas about those functions. It also proves that every
  run of user actions keeps the state valid when loads are all or nothing (the
  load as written does not; see Findings).
- `animator.dfy`: class `Animator`. Its fields are the source's fields. Each
  method is proved to change them exactly as the matching `Session` function
  says.

The invariant is `Session.Valid`. It requires that every frame has exactly
`800*600*3` bytes, and that the brush size is odd and at least 1. A stroke is
in progress exactly when a last point is recorded. The index names a frame
when there are frames, and is 0 when there are none. Every operation keeps
this invariant except a failed load (see Findings). Most methods need only
`Session.WellFormed`, and keep the invariant when it held before.
`delete_frame` needs the index to name a frame when there are frames, and
`draw` needs the same while a stroke is in progress; otherwise the source
indexes past the end. `new_frame` restores the invariant from any
well-formed state.

`decrease_brush` refuses only at size 1, so from the starting size 5 the
sizes are 5, 3, 1. Loading is not all-or-nothing (see Findings).

## Model

| member | source | states |
|---|---|---|
| Base64.ValueOf | freshanimator.py:90 | a character decodes to a value exactly when it is one of the 64 alphabet characters, and then encodes back to itself |
| Base64.ValueOfCharOf | freshanimator.py:78 | every alphabet character decodes to its own position in the table |
| Base64.Encode | freshanimator.py:78 | output length is 4 characters per started group of 3 bytes |
| Base64.Decode | freshanimator.py:90 | an accepted string's length is 4 characters per started group of 3 decoded bytes |
| Base64.DecodeEncode | freshanimator.py:78 | decoding an encoding gives back the same bytes, for every byte sequence |
| Base64.EncodeDecode | freshanimator.py:90 | every accepted string is exactly the encoding of what it decodes to |
| Raster.WhiteFrame | freshanimator.py:59 | a new frame has 800*600*3 bytes, all 255 (white) |
| Raster.OffsetLayout | freshanimator.py:77 | the byte buffer is row-major with 3 bytes per pixel: each channel of each pixel on the canvas has its own offset, inside the buffer |
| Raster.Paint | freshanimator.py:140 | a stroke paints in place: the frame keeps its length |
| Raster.PaintEffect | freshanimator.py:140 | a stroke sets every channel of each covered pixel to the stroke colour and leaves every other byte unchanged |
| Raster.EraseRestoresBackground | freshanimator.py:139-140 | erasing over any frame makes the covered pixels byte-identical to a blank frame |
| Raster.PaintOverwrites | freshanimator.py:140 | a later stroke over the same pixels hides an earlier one completely |
| Persistence.SaveDocument | freshanimator.py:75-79 | the saved list has one string per frame, in order, and each string decodes to its frame |
| Persistence.DecodeFrame | freshanimator.py:90-91 | an entry becomes a frame exactly when it is valid base 64 that decodes to 800*600*3 bytes |
| Persistence.DecodeFrameExact | freshanimator.py:90-91 | an accepted entry is exactly the saved form of the frame it yields |
| Persistence.FirstBad | freshanimator.py:89-91 | the load loop stops at the first entry that fails: every earlier entry decodes, and that one does not |
| Persistence.DecodedPrefix | freshanimator.py:88-92 | the frames appended before the loop stops: one per entry before the first failure, each a full frame |
| Persistence.LoadOutcome | freshanimator.py:88-93 | a load reports no error exactly when the "frames" field exists and every entry decodes |
| Persistence.SaveThenDecode | freshanimator.py:76-79 | a saved document decodes completely, to the very frames that were saved |
| Persistence.TruncatedFrameRejected | freshanimator.py:90-91 | a frame that lost one byte is rejected, with the length it decodes to |
| Session.Startup | freshanimator.py:10-20 | the window opens valid, with one blank frame selected, brush 5, drawing mode, onion skin on, no stroke |
| Properties.ShownFramesExist | freshanimator.py:148-161 | in a valid state every frame the canvas reads (the current one, and the one before it under onion skin) exists, so the lookups at lines 153 and 155 cannot fail |
| Properties.NewFramesAppend | freshanimator.py:58-62 | n new frames append n blank frames at the end and select the last; earlier frames and all settings are unchanged |
| Properties.DeleteFrameRemovesCurrent | freshanimator.py:65-69 | deleting removes exactly the current frame, keeps the rest in order, moves the index back one unless it was 0, and leaves the settings and the stroke as they were |
| Properties.DeleteLastFrame | freshanimator.py:65-69 | deleting the only frame leaves an empty list with index 0 |
| Properties.DeleteUndoesNewFrame | freshanimator.py:58-69 | from any well-formed state, even one a failed load left, deleting the frame just created restores the old frames, with the last of them selected |
| Properties.NavigationInverse | freshanimator.py:167-175 | in a valid state, next and previous move by exactly one and undo each other wherever the move is possible |
| Properties.NavigationStopsAtEnds | freshanimator.py:167-175 | in a valid state, next is a no-op exactly at the last frame or on an empty list, and previous exactly at index 0; no wrap-around; on an empty list delete, previous and every playback tick change nothing |
| Properties.PlaybackRunsToEnd | freshanimator.py:103-109 | playback from any frame ends with the last frame selected and nothing else changed; from past the end it changes nothing |
| Properties.BrushSteps | freshanimator.py:119-126 | shrinking undoes growing, and growing undoes any shrink that happens |
| Properties.SmallestBrush | freshanimator.py:123-125 | shrinking is refused exactly at size 1 |
| Properties.BrushOneReachable | freshanimator.py:17 | from the starting size 5, two shrinks reach size 1 |
| Properties.ToolToggles | freshanimator.py:111-130 | the eraser and draw buttons set the mode and are idempotent; toggling onion skin twice restores it |
| Properties.StrokeColourFollowsMode | freshanimator.py:139 | the stroke is white exactly when the eraser is on, black otherwise |
| Properties.DrawEffect | freshanimator.py:136-141 | from any well-formed state, motion outside a stroke or without frames changes nothing; otherwise it paints the segment from the last point only on the current frame and records the new point |
| Properties.EraserStrokeRestoresBackground | freshanimator.py:136-141 | an eraser stroke leaves the pixels it covers byte-identical to a blank frame |
| Properties.StrokeStartsAtPress | freshanimator.py:132-140 | the first motion after a press paints from the press position |
| Properties.ReleaseEndsStroke | freshanimator.py:144-146 | from any well-formed state, release clears the stroke, and motion after it paints nothing |
| Properties.SaveThenLoad | freshanimator.py:75-93 | from any well-formed state, loading what was saved succeeds and gives back the same frames with index 0, for both loads |
| Properties.LoadFailureKeepsPrefix | freshanimator.py:88-93 | a load that fails at entry k reports it, keeps exactly the k frames decoded before it, and keeps the old index |
| Properties.LoadAtomicMatchesOnSuccess | freshanimator.py:88-93 | the all-or-nothing load agrees with the load as written when every entry decodes, and changes nothing otherwise |
| Properties.LoadAsWrittenIndex | freshanimator.py:88-93 | after the load as written, the index is in range exactly when the load succeeded or the old index fits the frames decoded so far |
| Properties.LoadAsWrittenBreaksIndex | freshanimator.py:88-93 | three frames at index 2, then a document whose second entry decodes to no bytes: one frame is left, the index is still 2 and out of range, and the canvas would read frame 2 |
| Properties.LoadAsWrittenBreaksNavigation | freshanimator.py:88-93 | after a load with no frames field the list is empty yet previous moves the index; after the partial load the single frame at index 2 makes next a no-op that does not undo previous |
| Properties.StepPreservesValid | freshanimator.py:58-175 | every operation (new, delete, next, previous, tick, brush, tools, press, motion, release, all-or-nothing load) keeps the state valid |
| Properties.Run | freshanimator.py:58-175 | any sequence of those operations from a valid state ends in a valid state |
| Properties.EveryRunKeepsIndexInRange | freshanimator.py:17-20 | from the opening state, with the all-or-nothing load, after any run of operations the index names a frame whenever there is one, and the brush size is odd and at least 1 |
| FreshAnimator.Animator.constructor | freshanimator.py:7-20 | the object starts in the opening state |
| FreshAnimator.Animator.NewFrame | freshanimator.py:58-63 | follows `Session.NewFrame` and leaves the object valid |
| FreshAnimator.Animator.DeleteFrame | freshanimator.py:65-70 | follows `Session.DeleteFrame` (a no-op on an empty list, whatever the index) and keeps the invariants |
| FreshAnimator.Animator.NextFrame | freshanimator.py:167-170 | follows `Session.NextFrame` and keeps the invariants |
| FreshAnimator.Animator.PrevFrame | freshanimator.py:172-175 | follows `Session.PrevFrame` and keeps the invariants |
| FreshAnimator.Animator.PlayTick | freshanimator.py:104-108 | follows `Session.PlayTick` and returns the scheduled tick, if any |
| FreshAnimator.Animator.IncreaseBrush | freshanimator.py:119-121 | follows `Session.IncreaseBrush` and keeps the invariants |
| FreshAnimator.Animator.DecreaseBrush | freshanimator.py:123-126 | follows `Session.DecreaseBrush` and keeps the invariants |
| FreshAnimator.Animator.ToggleEraser | freshanimator.py:111-113 | follows `Session.ToggleEraser` and keeps the invariants |
| FreshAnimator.Animator.SetDrawMode | freshanimator.py:115-117 | follows `Session.SetDrawMode` and keeps the invariants |
| FreshAnimator.Animator.ToggleOnionSkin | freshanimator.py:128-130 | follows `Session.ToggleOnionSkin` and keeps the invariants |
| FreshAnimator.Animator.StartDraw | freshanimator.py:132-134 | follows `Session.StartDraw` and keeps the invariants |
| FreshAnimator.Animator.Draw | freshanimator.py:136-142 | follows `Session.Draw` (a no-op outside a stroke or without frames, whatever the index) and keeps the invariants |
| FreshAnimator.Animator.ResetDraw | freshanimator.py:144-146 | follows `Session.ResetDraw` and keeps the invariants |
| FreshAnimator.Animator.Save | freshanimator.py:75-79 | the encode loop produces `Persistence.SaveDocument` of the frames |
| FreshAnimator.Animator.Load | freshanimator.py:88-93 | the clear-then-append loop produces `Session.LoadAsWritten`, reports `Persistence.LoadOutcome`, and keeps every frame well formed |
| FreshAnimator.Animator.LoadAtomic | freshanimator.py:88-93 | decodes every entry before replacing the list: produces `Session.LoadAtomic` and keeps the object valid |

## Findings

| source | as written | input that shows it | evidently intended | confidence | as-written member | corrected member |
|---|---|---|---|---|---|---|
| freshanimator.py:88-93 | the frame list is cleared before decoding, and the index is reset to 0 only after the last entry decodes | three frames with index 2, then a document whose first entry is a frame and whose second decodes to no bytes: one frame is left and the index stays 2, so a later `draw` or `delete_frame` would index past the end | a failed load leaves the previous frames and index untouched | medium, not executed | Properties.LoadAsWrittenBreaksIndex | Properties.LoadAtomicMatchesOnSuccess |
| freshanimator.py:88-93 | the same load leaves the index stale, and `next_frame` and `prev_frame` (lines 167-175) compare against it | three frames with index 2, then a document with no "frames" field: the list is empty, yet previous moves the index to 1; or the document above: one frame at index 2, next is refused, and next after previous does not return to the same state | navigation after any load behaves as in a valid state | medium, not executed | Properties.LoadAsWrittenBreaksNavigation | Properties.StepPreservesValid |

`FreshAnimator.Animator.Load` models the code as written. `Session.LoadAsWritten`
is its specification, and `Properties.LoadAsWrittenIndex` says exactly when the
invariant survives it. The corrected `FreshAnimator.Animator.LoadAtomic` follows
`Session.LoadAtomic`. That is the load the run of actions in `Properties.Step`
uses, and `Properties.StepPreservesValid` proves that it keeps the state valid.

## Left out

- Tk UI: the window, styles, buttons, key bindings, the canvas image and the status text (freshanimator.py:22-56, 162-165) are not modelled.
- Rendering: `update_canvas` (freshanimator.py:148-165) is not modelled as a state change. PIL's alpha compositing for onion skin is left out. `Session.ShownFrames` states only which frames it reads.
- Line rasterisation: PIL's `draw.line` is a library call. `Raster.Rasteriser` is a parameter that gives the covered pixels for two end points and a width. `Paint` sets those pixels to black or white.
- File dialogs, file reads and writes, and JSON: these are I/O. The save result is the list of strings for the "frames" field. The load input is that field, or None when it is missing. In the source the missing field raises `KeyError` after the list was cleared, and the model does the same. A file that is not JSON raises before the list is cleared, so the state is unchanged; that path is not modelled. Entries that are not strings are not modelled either.
- GIF export (freshanimator.py:96-101): it is done entirely by PIL's encoder.
- Playback scheduling: the 100 ms `root.after` timer is not modelled. A tick is `Animator.PlayTick`. `Properties.Playback` chains ticks with nothing in between. `Properties.Run` allows any actions between ticks.
- Base64.Decode: it accepts only what `Encode` produces. Python's `b64decode` discards characters outside the alphabet and ignores nonzero padding bits, and those lenient inputs are not modelled.
- Persistence.DecodeFrame: it rejects any decoded length other than 800*600*3. PIL's `Image.frombytes` raises when data is short; its behaviour when data is too long is library behaviour that is not modelled.
- Errors raised on a state a failed load left, with frames and an index at or past their end: `delete_frame` would raise `IndexError` at the `pop`, and `draw` would raise at the frame lookup while a stroke is in progress. The model requires the index to be in range for exactly those two cases instead.
- Redraw errors after a state change: `prev_frame`, `toggle_eraser`, `set_draw_mode`, `increase_brush`, `decrease_brush` and `toggle_onion_skin` all call `update_canvas` after changing the state (freshanimator.py:113, 117, 121, 126, 130, 175). On a state with frames and an index at or past their end, that redraw raises `IndexError` at freshanimator.py:153. The model keeps the state change and leaves out the exception.
