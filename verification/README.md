# MJPEG player core in Dafny

A model of the two pieces of sequential logic inside the Clipchamp jQuery
MJPEG player plugin (`jquery.clipchamp.mjpeg.player.js`):

- **The frame splitter** (`splitter.dfy`, module `Splitter`). The scan loop
  of `splitMJPEG` walks the downloaded byte buffer. It records every offset
  where the three-byte signature `FF D8 FF` begins: the JPEG start-of-image
  marker `FF D8` (ITU-T T.81, Annex B.1.1.3) followed by the `FF` of the next
  marker. Each time it finds a signature after an earlier one, it emits the
  half-open range between the two. Frames are modelled as offset ranges
  (`Frame(start, end)`), not as `Blob`s. The reference definition the loop is
  proved against is `Between(Markers(bytes))`: the ranges between consecutive
  signature positions.
- **The playback state machine** (`playback.dfy`, module `Playback`). This is
  the state of one `playMJPEGInternal` session: the index of the next frame,
  the pause and loop flags, the frame count, and whether the image element
  has been released. On top of it sit `showNextFrame` and its image-loaded
  continuation, and the transport functions `finish`, `play`, `pause` and
  `seek`, each as a pure transition. Timers only decide when a presentation
  runs. Each transition therefore reports a `scheduled` flag instead of
  calling `setTimeout`/`requestAnimationFrame`. `Chain` follows the scheduled
  presentations when no transport call comes in between.
- **A whole session** (`scenario.dfy`, module `Scenario`). The split result
  feeds a fresh player, and a three-signature clip is played end to end.
- `wrappers.dfy` holds the `Option` and `Result` types.

Modelling choices that follow the code:

- A typed-array read past the end yields `undefined`, which never equals a
  byte. So a signature cannot start in the last two bytes.
- The range after the last signature is never emitted. K signature
  positions, overlapping ones included, give max(K − 1, 0) frames. A buffer
  with a single signature gives no frame, and playback never starts.
- `showNextFrame` increments the index before it looks up the frame. When no
  frame exists at the index, the presentation throws (outcome `Failed`), but
  the index has still moved on. While the frame list is undefined, indexing it
  throws. With frames loaded, the index past the end reads `undefined`, and
  `URL.createObjectURL(undefined)` throws, after the URL of the frame on
  screen has already been revoked.
- `showNextFrame` does not consult the pause flag. A presentation already
  scheduled when `pause` comes in still shows frame k and advances the index,
  and only its image-loaded continuation stops. A later `play` then resumes
  at frame k + 1 (`PendingPresentationAfterPause`). Pause then play resumes at
  the same frame only when no presentation is pending.
- A `play` before the split callback runs a presentation on the undefined
  frame list. It throws after moving the index to 1, so once the frames
  arrive playback starts at frame 1 (`PlayBeforeFramesSkipsFirst`).
- A frame count of 0 stands for the frame list still being undefined. The
  split callback assigns the list only when it is non-empty. `seek` reads
  the list's length, so before the frames arrive it throws a `TypeError`
  (`Err(FramesUndefined)`). It is not a silent no-op.
- `play` always schedules a presentation, even after `finish`. That
  presentation then does nothing, because the image element is gone.
- The image-loaded continuation wraps the index to 0 only in the branch that
  schedules. Two things follow. A `play` after playback stopped on the last
  frame without looping throws instead of restarting. Pausing while the last
  frame of a looping clip loads, then calling `play`, also throws.
  `PlayAfterEndFails` and `PauseOnLastLoopFrameFails` state both.

## Model

| member | source | states |
|---|---|---|
| Splitter.MatchAt | jquery.clipchamp.mjpeg.player.js:36-37 | the loop's test succeeds at i exactly when i + 2 is inside the buffer and bytes i, i+1, i+2 are FF, D8, FF; reads past the end never match |
| Splitter.MatchAtSlice | jquery.clipchamp.mjpeg.player.js:18-37 | a successful test means the three-byte slice at i equals the signature constant |
| Splitter.MarkersBelow | jquery.clipchamp.mjpeg.player.js:36-37 | the reference position list holds only indices where the test succeeds, in strictly increasing order |
| Splitter.MarkersBelowComplete | jquery.clipchamp.mjpeg.player.js:36-37 | every index where the test succeeds is in the position list |
| Splitter.BetweenSnoc | jquery.clipchamp.mjpeg.player.js:38-41 | a new signature after an earlier one closes exactly one more range, from the previous start to the new position; the first one closes none |
| Splitter.ScanStepAdvances | jquery.clipchamp.mjpeg.player.js:37-42 | one loop iteration keeps the invariant: `startIndex` is the last position seen so far and the pushed frames are the ranges between the positions seen so far |
| Splitter.ScanFromFinishes | jquery.clipchamp.mjpeg.player.js:36-43 | running the rest of the loop from any index on the invariant state ends with the ranges for the whole buffer |
| Splitter.Split | jquery.clipchamp.mjpeg.player.js:31-46 | the frames are the ranges between consecutive signature positions: each begins with the signature, ends where the next signature begins, contains no other signature, and they are non-empty, in stream order and contiguous; their count is one less than the number of positions, or 0 |
| Splitter.BetweenMarkersEnds | jquery.clipchamp.mjpeg.player.js:38-41 | every range between positions starts and ends at a signature |
| Splitter.BetweenMarkersOrdered | jquery.clipchamp.mjpeg.player.js:38-41 | every range between positions is non-empty and inside the buffer |
| Splitter.BetweenMarkersContiguous | jquery.clipchamp.mjpeg.player.js:38-41 | each range ends where the next begins |
| Splitter.BetweenMarkersInside | jquery.clipchamp.mjpeg.player.js:36-41 | no signature lies strictly between two neighbouring positions |
| Splitter.MarkersBelowCounts | jquery.clipchamp.mjpeg.player.js:36-43 | the position list has as many entries as there are indices where the test succeeds |
| Splitter.SplitCount | jquery.clipchamp.mjpeg.player.js:36-45 | K matching indices, overlaps allowed, give exactly max(K − 1, 0) frames |
| Splitter.AtMostOneMarkerYieldsNothing | jquery.clipchamp.mjpeg.player.js:38-45 | with zero or one signature the callback receives no frame |
| Splitter.TailNeverEmitted | jquery.clipchamp.mjpeg.player.js:36-45 | no frame extends past the last signature position |
| Splitter.OverlappingMarkers | jquery.clipchamp.mjpeg.player.js:36-42 | in FF D8 FF D8 FF the signatures at 0 and 2 overlap and give the single frame [0, 2) |
| Playback.Start | jquery.clipchamp.mjpeg.player.js:64-70 | a session uses 24 fps and looping when these are not given, is paused unless autoplaying, starts at index 0, unfinished and without frames |
| Playback.FramesReady | jquery.clipchamp.mjpeg.player.js:99-105 | a non-empty split stores the frame count and schedules the first presentation; an empty one changes and schedules nothing |
| Playback.Show | jquery.clipchamp.mjpeg.player.js:77-83 | after finish nothing happens; otherwise the index advances by one (the pause flag is not consulted) and frame k is shown exactly when k is below the frame count, the presentation throwing otherwise |
| Playback.Loaded | jquery.clipchamp.mjpeg.player.js:84-94 | the next presentation is scheduled exactly when the session is unfinished, unpaused, and looping or short of the end; the index wraps to 0 only when scheduling at the end |
| Playback.Present | jquery.clipchamp.mjpeg.player.js:77-97 | presenting frame k moves the index to k + 1, schedules iff unpaused and (looping or k + 1 below the count), and wraps to 0 when scheduling after the last frame; a finished session is untouched; a missing frame throws with the index still advanced |
| Playback.Finish | jquery.clipchamp.mjpeg.player.js:109-115 | the session becomes finished, nothing else changes, nothing is scheduled |
| Playback.Play | jquery.clipchamp.mjpeg.player.js:116-121 | clears only the pause flag and always schedules a presentation |
| Playback.Pause | jquery.clipchamp.mjpeg.player.js:122-124 | sets only the pause flag, keeps the index, schedules nothing |
| Playback.SeekTarget | jquery.clipchamp.mjpeg.player.js:126 | the target frame is the one on screen at the position: k·1000 ≤ ms·fps < (k+1)·1000 (corrected; see Findings) |
| Playback.SeekTargetUnique | jquery.clipchamp.mjpeg.player.js:126 | only one frame is on screen at a position, and it is the target |
| Playback.SeekTo | jquery.clipchamp.mjpeg.player.js:127-133 | the index becomes the target clamped to the last frame, never wrapped; pause is cleared and a presentation scheduled iff autoPlay, pause untouched otherwise; nothing else changes; with no frames it throws |
| Playback.Seek | jquery.clipchamp.mjpeg.player.js:125-133 | seeking within the clip lands on the frame on screen at the position; beyond it, on the last frame; with no frames it throws |
| Playback.SeekAsWritten | jquery.clipchamp.mjpeg.player.js:125-133 | with the source's formula the index is floor(ms / fps) clamped to the last frame |
| Playback.SeekAsWrittenOvershoots | jquery.clipchamp.mjpeg.player.js:126 | as written, one second at 24 fps selects frame 41, not the frame 24 on screen then |
| Playback.PauseThenPlayResumes | jquery.clipchamp.mjpeg.player.js:116-124 | with no presentation pending, pause then play restores the state with pause cleared, and the next presentation shows the frame that was next at the pause |
| Playback.PendingPresentationAfterPause | jquery.clipchamp.mjpeg.player.js:77-124 | a presentation pending when pause comes in still shows frame k and advances the index without scheduling, so a later play resumes at frame k + 1 |
| Playback.PlayBeforeFramesSkipsFirst | jquery.clipchamp.mjpeg.player.js:77-121 | a play before the frames arrive throws with the index moved to 1, and the first presentation after the split callback shows frame 1 |
| Playback.FinishIdempotent | jquery.clipchamp.mjpeg.player.js:109-115 | a second finish changes nothing |
| Playback.FinishedIsInert | jquery.clipchamp.mjpeg.player.js:77-121 | after finish, presentations and load continuations change and schedule nothing, also after a play |
| Playback.LastFrameStops | jquery.clipchamp.mjpeg.player.js:82-91 | without looping, presenting the last frame schedules nothing and leaves the index one past the end |
| Playback.ScheduledFrameExists | jquery.clipchamp.mjpeg.player.js:82-91 | a presentation the load continuation schedules always finds a frame |
| Playback.PlayAfterEndFails | jquery.clipchamp.mjpeg.player.js:82-121 | play after a non-looping clip ended looks up the frame past the end, reads `undefined`, and creating its object URL throws |
| Playback.PauseOnLastLoopFrameFails | jquery.clipchamp.mjpeg.player.js:82-124 | pausing while the last frame of a looping clip loads skips the wrap, and a later play throws |
| Playback.LoopStep | jquery.clipchamp.mjpeg.player.js:82-91 | looping and unpaused, a presentation shows the frame at the index and the chain continues from the next index, wrapped to 0 after the last frame |
| Playback.StraightStep | jquery.clipchamp.mjpeg.player.js:82-91 | not looping and unpaused, a presentation shows the frame at the index and the chain continues from the next index only while a frame remains |
| Playback.LoopCycles | jquery.clipchamp.mjpeg.player.js:82-91 | looping and unpaused, the n chained presentations show frames (start + j) mod count, so frame 0 follows the last, without end |
| Playback.PlaysToLastFrame | jquery.clipchamp.mjpeg.player.js:82-91 | not looping and unpaused, chained presentation shows each frame from the index to the last exactly once in order, then stops |
| Scenario.Session | jquery.clipchamp.mjpeg.player.js:99-106 | after the split callback the player holds the split's frame count at index 0 and has scheduled a presentation iff the split gave frames |
| Scenario.PlaysEveryFrameOnce | jquery.clipchamp.mjpeg.player.js:99-105 | an autoplaying non-looping session shows every emitted frame once, in stream order |
| Scenario.ClipMarkers | jquery.clipchamp.mjpeg.player.js:36-43 | the three-signature clip has its signatures at offsets 0, 5 and 10 |
| Scenario.ClipShowsTwoFrames | jquery.clipchamp.mjpeg.player.js:36-105 | the clip A, B, C at 10 fps without looping splits into A and B only, and playback shows A then B and holds |

## Findings

| source | as written | input that shows it | evidently intended | confidence | as-written member | corrected member |
|---|---|---|---|---|---|---|
| jquery.clipchamp.mjpeg.player.js:126 | target frame = floor(second · 1000 / fps) | second = 1, fps = 24: frame 41, on screen only from about 1.71 s | target frame = floor(second · fps), the frame on screen at that second (1000/fps is the frame period in ms, used at :91) | high, not executed | Playback.SeekAsWrittenOvershoots | Playback.SeekTarget |

`Playback.Seek` uses the corrected target. `Playback.SeekAsWritten` keeps the
formula as written. Both share the clamp, pause and schedule logic of
`Playback.SeekTo`.

## Left out

- XHR fetch, `overrideMimeType` and `responseType`: network I/O. The model starts from the downloaded bytes.
- `Blob` construction and `URL.createObjectURL`/`revokeObjectURL`: browser APIs. A frame is an offset range, and the release of the previous object URL is not modelled.
- Download progress reporting with `toFixed`: floating-point formatting of transport events.
- `setTimeout`/`requestAnimationFrame` timing and the 1000/fps delay: wall-clock scheduling. It becomes the `scheduled` flag. Several chains of pending presentations (for example `play` called twice) are not tracked. `Chain` follows a single one.
- Creating, styling, appending and removing the image element: DOM work. Only its release, as the `finished` flag, is modelled.
- The jQuery plugin dispatch through the shared `returnObj`, its argument checks, and the AMD wrapper: glue code.
- Image decoding: every frame shown is assumed to decode and fire the image-loaded continuation. A frame that does not decode (such as the two-byte frame of `Splitter.OverlappingMarkers`) fires an error event instead, nothing is scheduled, and playback stops with the index advanced. `Present`, `Chain`, `LoopCycles` and `PlaysToLastFrame` do not model that stop.
- Playback.Seek: positions are whole milliseconds, not floating-point seconds. Negative positions and fractional milliseconds are not modelled.
- Playback.Start: the frame rate is a positive whole number. The source accepts any JavaScript number, including fractional rates, 0 and negative values.
