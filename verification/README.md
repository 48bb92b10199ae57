# flow-viz-labeler in Dafny

A model of the circle-annotation script `flow-viz-labeler.py`. An operator
steps through images. On each image they drag circles with the mouse (press
at the centre, release at the rim). Each release appends one record
`{filename, center, radius}` to a JSON-lines output file. A key then decides
what happens next: `n` goes to the next image, `s` scraps the records just
drawn for this image and goes on, and `q` quits the whole run.

The model is split into six modules:

- `Geometry` (geometry.dfy): pixel points and the committed radius. The
  script's `int(math.sqrt(dx*dx + dy*dy))` is the integer square root
  `FloorSqrt`, so a radius is the distance truncated towards zero.
- `Records` (records.dfy): the record and `delete_records`.
  - `Scrapped` is the value-level meaning of delete: drop the longest
    trailing run of records for one image.
  - `DeleteRecords` is the backward `while` loop of the script, proved equal
    to `Scrapped`.
- `Extensions` (extensions.dfy): the file-type check of `load_image`.
  `Extension` follows `os.path.splitext` on a base name: the extension runs
  from the last dot, provided some character before that dot is not a dot.
- `Sessions` (sessions.dfy): the labeler's state as a value `Tracker` (the
  globals `x0, y0, is_drawing` and the output file's records), plus:
  - `Step`: the `draw_circle` callback for one event;
  - `Decide`: the key dispatch `key & 0xFF`, then n/N, s/S or q/Q;
  - `Session`: the polling loop of `render_image` for one image, run over a
    sequence of input events, with its outcome and the input it leaves.
- `Batches` (batches.dfy): the loop over a directory's sorted names.
  - `Batch` renders each name in order and stops at the first truthy return.
  - `BatchAsWritten` models the invalid-extension path as the script
    actually runs it (see Findings).
- `FlowVizLabeler` (labeler.dfy): class `Labeler`, whose fields are the
  script's mutable state. Its methods are the callback cases, the polling
  loop and the directory loop, each proved against the value-level functions
  above.

Two consequences of the code worth knowing:

- The radius is truncated with `int(...)`, not rounded.
- A quit keeps the records already drawn on the image quit on:
  `Sessions.SessionAppendLog` holds for every outcome other than a scrap,
  including the `Stop` of a q/Q key.

## Model

| member | source | states |
|---|---|---|
| `Geometry.FloorSqrt` | flow-viz-labeler.py:54 | The integer square root, computed from the root of `n / 4`; it stands for `int(math.sqrt(n))`. |
| `Geometry.Radius` | flow-viz-labeler.py:54 | The radius committed for a drag: `FloorSqrt` of the squared distance from the origin to the release point. |
| `Geometry.SquaredDistance` | flow-viz-labeler.py:54 | The squared drag length is never negative, and it is zero exactly when the release point is the press point. |
| `Geometry.FloorSqrtBounds` | flow-viz-labeler.py:54 | `FloorSqrt(n)` is the integer square root: `r*r <= n < (r+1)*(r+1)`. For pixel-range values this is what `int(math.sqrt(n))` gives. |
| `Geometry.FloorSqrtUnique` | flow-viz-labeler.py:54 | Any `r` within those bounds is `FloorSqrt(n)`, so the root is determined by them. |
| `Geometry.RadiusBounds` | flow-viz-labeler.py:54 | The committed radius is the Euclidean distance truncated towards zero. It is 0 exactly when the release is on the origin; a zero radius is still committed. |
| `Geometry.RadiusOfThreeFourFive` | flow-viz-labeler.py:54 | A drag from (10,10) to (13,14) has radius 5. |
| `Records.Scrapped` | flow-viz-labeler.py:78-81 | The log with its longest trailing run of records for the image removed. |
| `Records.ScrappedPrefix` | flow-viz-labeler.py:78-81 | Scrapping keeps a prefix of the log, and every record it drops is for the scrapped image. |
| `Records.ScrappedLast` | flow-viz-labeler.py:78-81 | The kept prefix is maximal: it does not end with a record for the image. A log whose last record is for another image is left unchanged. |
| `Records.ScrappedSplit` | flow-viz-labeler.py:78-81 | Scrapping `p + t` gives back `p` when `t` is all for the image and `p` does not end with it. So records for the same image that are separated from the tail by another image's record survive. |
| `Records.ScrappedIdempotent` | flow-viz-labeler.py:67-85 | Scrapping twice is the same as scrapping once. |
| `Records.ScrappedAbsorbsAppends` | flow-viz-labeler.py:78-81 | Records for the image appended before a scrap are removed with the trailing run that was already there. |
| `Records.DeleteRecords` | flow-viz-labeler.py:67-85 | The backward scan plus truncation returns exactly `Scrapped(lines, name)`. |
| `Extensions.LastDotIsLast` | flow-viz-labeler.py:22 | The index found is a dot, and no dot follows it (or there is no dot at all). |
| `Extensions.Extension` | flow-viz-labeler.py:22 | The extension is a suffix of the name. |
| `Extensions.ExtensionShape` | flow-viz-labeler.py:22 | A non-empty extension is one dot followed by no other dot, after a stem that is not all dots. It is empty exactly when there is no dot, or the part before the last dot is all dots. |
| `Extensions.ExtensionOfSuffix` | flow-viz-labeler.py:22 | A suffix that starts with its only dot and follows a non-dot character is the extension. |
| `Extensions.HasValidExtension` | flow-viz-labeler.py:22-23 | The check `os.path.splitext(path)[1] in VALID_EXTS`, with `VALID_EXTS` = {`.png`, `.jpg`, `.jpeg`}. |
| `Extensions.ValidExtensionIffSuffix` | flow-viz-labeler.py:22-26 | A name passes the check exactly when it ends in `.png`, `.jpg` or `.jpeg` after some non-dot character. The comparison is case-sensitive, so `.PNG` fails. |
| `Sessions.Step` | flow-viz-labeler.py:40-64 | `draw_circle` for one event: a press sets the origin and the drawing flag; a move changes nothing; a release clears the flag and appends a record centred at the current origin with `Radius` to the release point. |
| `Sessions.Decide` | flow-viz-labeler.py:109-116 | The dispatch on `key & 0xFF`: n/N is next, s/S is scrap, q/Q is quit, and anything else keeps polling. |
| `Sessions.Decided` | flow-viz-labeler.py:110-116 | The branch taken on a deciding key: n/N and q/Q leave the state alone, s/S replaces the log by `Scrapped` for this image (`delete_records`); the outcome is the key's meaning and the input after the key is left. |
| `Sessions.LowByte` | flow-viz-labeler.py:109 | `key & 0xFF` lies in 0..255 and differs from the key code by a multiple of 256. |
| `Sessions.DecideIgnoresHighBits` | flow-viz-labeler.py:109-116 | Key codes that differ by a multiple of 256 are dispatched the same way. |
| `Sessions.NoKeyKeepsPolling` | flow-viz-labeler.py:107-116 | The -1 that `waitKey` returns when no key arrived decides nothing; the loop keeps polling. |
| `Sessions.DecideLetters` | flow-viz-labeler.py:110-116 | Letters are dispatched regardless of case, and n, s and q are the only letters that decide. |
| `Sessions.Session` | flow-viz-labeler.py:107-116 | A review leaves at most as much input as it was given and never reports the "skipped" outcome of a rejected file. That the input left is a suffix, the part after the deciding key, is stated by `Sessions.SessionStopsAtFirstDecisionKey` and `Sessions.SessionPendingIffNoKey`. |
| `Sessions.SessionPendingIffNoKey` | flow-viz-labeler.py:107-116 | A review is still polling exactly when the input holds no n/N, s/S or q/Q key; in that case it has used up all of the input. |
| `Sessions.SessionStopsAtFirstDecisionKey` | flow-viz-labeler.py:107-116 | A review that decides ends at the first decision key. Its outcome is that key's meaning (n/N gives `return 0`, s/S scraps then `return 0`, q/Q gives `return 1`), and the input after that key goes to the next image. |
| `Sessions.SessionScrapLog` | flow-viz-labeler.py:112-114 | After s/S the log is the scrapped log the review started from: the circles drawn on this image are gone, along with the trailing run for it that was already there. |
| `Sessions.SessionAppendLog` | flow-viz-labeler.py:53-64 | Without a scrap, the earlier log is kept unchanged and one record for this image is appended per release before the deciding key. |
| `Sessions.SessionWithoutPressKeepsOrigin` | flow-viz-labeler.py:53-62 | The origin is never reset. A review with no press before its deciding key keeps the origin it started with and centres every record it commits there: the sentinel (-1,-1) on the first image, or the previous image's last press. |
| `Sessions.GestureThenNext` | flow-viz-labeler.py:43-64 | Press at p, move to q, release at q, then n: exactly one record, centred at p with the radius of the drag, and drawing is off. |
| `Sessions.GestureCommitExample` | flow-viz-labeler.py:43-64 | Press (10,10), move (13,14), release (13,14), then n commits one record with centre (10,10) and radius 5. |
| `Sessions.ReleaseWithoutPressExample` | flow-viz-labeler.py:53-62 | On a fresh labeler, a release at (2,3) with no press commits centre (-1,-1) and radius 5. |
| `Batches.Render` | flow-viz-labeler.py:87-95 | The corrected `render_image` for one name: skip it, leaving state and input alone, if its extension is not recognised; otherwise run the review. |
| `Batches.Truthy` | flow-viz-labeler.py:138 | `if quit:` on `render_image`'s return: only the 1 of a q/Q key is truthy; 0 and the `None` of a skipped name are not. |
| `Batches.Batch` | flow-viz-labeler.py:136-139 | The directory loop over the names in order, with `Render` per name; it stops when a review quits or is still polling, and otherwise goes on with the input left. Its result also holds the input the run leaves unread. |
| `Batches.RenderSkipsOnlyInvalid` | flow-viz-labeler.py:87-95 | A name is skipped exactly when its extension is not recognised. |
| `Batches.BatchVisitsPrefix` | flow-viz-labeler.py:136-139 | The loop visits a prefix of the sorted names, in order. The names it displays are exactly the recognised ones in that prefix. |
| `Batches.BatchEndsOnDisplayed` | flow-viz-labeler.py:136-139 | The corrected loop never crashes. It either finishes after the last name, or ends early on a displayed image (the one quit on, or the one still waiting for a key when the input runs out) and never reaches the names after it. |
| `Batches.BatchQuitsOnFirstQuitKey` | flow-viz-labeler.py:137-139 | The run exits early (`sys.exit(-1)`) only because of a q/Q key, and it ends on the first q/Q key of its input: the input it leaves unread is exactly what follows that key. |
| `Batches.RenderQuits` | flow-viz-labeler.py:107-116 | An image whose review returns 1 ends on the first q/Q key of its input, and leaves the input after that key. |
| `Batches.RenderPassesOn` | flow-viz-labeler.py:87-116 | A name that is skipped or reviewed without quitting reads no q/Q key, so the first q/Q key in the input it leaves is the first q/Q key of all its input. |
| `Batches.FirstQuitKeyAfter` | flow-viz-labeler.py:107-116 | The first q/Q key after a stretch of input without one is the first q/Q key of all the input. |
| `Sessions.SessionQuitKeys` | flow-viz-labeler.py:110-116 | A review that decides reads no q/Q key before its deciding key, and that key is q/Q exactly when the review returns 1. |
| `Batches.QuitKeyEndsReview` | flow-viz-labeler.py:115-116 | A q key as the next input ends the review with the state unchanged and returns 1. |
| `Batches.QuitOnSecondImage` | flow-viz-labeler.py:136-139 | Three names, the first two recognised, with n on the first image, q on the second and n after it: the run exits after the second image, never shows the third, and leaves the last n unread. |
| `Batches.BatchTouchesOnlyRendered` | flow-viz-labeler.py:133-139 | A run adds and removes only records of displayed images: at every index of the log before or after the run, the record is the same in both, or belongs to a displayed image. Skipped names and names after a quit gain no records and lose none. |
| `Batches.SessionChangesOnlyOwnImage` | flow-viz-labeler.py:107-116 | A review adds and removes only records for its own image: at every index of the log before or after it, the record is the same in both, or is for this image. |
| `Batches.BatchAsWritten` | flow-viz-labeler.py:90-95 | The loop as written never reaches more names than it was given. |
| `Batches.AsWrittenStopsAtInvalid` | flow-viz-labeler.py:90-95 | As written, no name after an unrecognised one is ever reached. |
| `Batches.ExampleNames` | flow-viz-labeler.py:22-23 | `a.png` and `c.jpg` pass the check; `b.txt` does not. |
| `Batches.NextKeyEndsReview` | flow-viz-labeler.py:110-111 | An n key as the next input ends the review and leaves the state unchanged. |
| `Batches.InvalidEntryAsWritten` | flow-viz-labeler.py:90-95 | For names valid, invalid, valid with n pressed on each image, the run as written dies at the second name. The third image is never shown. |
| `Batches.InvalidEntrySkipped` | flow-viz-labeler.py:136-139 | With the invalid entry skipped, the same input reviews the first and third images in order, and the run finishes. |
| `FlowVizLabeler.Labeler.constructor` | flow-viz-labeler.py:36-37 | At start the origin is the sentinel (-1,-1), no drag is in progress, and the log holds whatever the output file already held. |
| `FlowVizLabeler.Labeler.Press` | flow-viz-labeler.py:43-46 | A press sets the origin to the press point and turns drawing on. It appends nothing. |
| `FlowVizLabeler.Labeler.Move` | flow-viz-labeler.py:48-51 | A move changes no state. A preview dot is drawn exactly while a drag is in progress. |
| `FlowVizLabeler.Labeler.Release` | flow-viz-labeler.py:53-64 | A release keeps the origin and turns drawing off. It appends exactly one record: centre at the origin, radius the truncated distance to the release point. |
| `FlowVizLabeler.Labeler.Review` | flow-viz-labeler.py:107-116 | The polling loop returns the outcome, the new state and the remaining input that `Session` specifies. |
| `FlowVizLabeler.Labeler.RenderImage` | flow-viz-labeler.py:87-95 | The corrected `render_image` described under Findings: it skips a name with an unrecognised extension (as written, line 92 raises `TypeError` instead) and reviews any other, as `Render` specifies. |
| `FlowVizLabeler.Labeler.RunDirectory` | flow-viz-labeler.py:135-139 | The directory loop with the corrected `render_image` described under Findings ends with the status, state, visit count, displayed names and unread input that `Batch` specifies. |

## Left out

- Display: the OpenCV window, `imshow`, `putText` and the circles drawn on the image are not modelled. `Move` reports only whether a preview dot would be drawn.
- Image loading: `cv2.imread` is not modelled. The `FileNotFoundError` it triggers for an unreadable file is uncaught and ends the script; the model assumes every recognised file loads.
- Files and JSON: the output file is modelled as the sequence of its records. File I/O, `json.dumps`, `eval` of read-back lines, and the question of whether they round-trip are not modelled.
- Floating point: `math.sqrt` is replaced by the exact integer square root. They agree for the distances that pixel coordinates produce.
- The radius computed on a mouse move is never used, so it is not modelled.
- Mouse events other than left-button down, move and left-button up do nothing in the callback, and are not part of `Event`.
- Timing: the callback and `waitKey` interleave as one sequence of events. The endless `while True` loop is modelled by the `Pending` outcome when that sequence runs out.
- Command line: argument parsing, the usage message, `os.path.isfile`/`isdir`, the "could not open" path and the exit codes are not modelled. `QuitExit` stands for `sys.exit(-1)`.
- Directory listing: `sorted(os.listdir(...))` is taken as the given sequence of names.
- Paths: names are modelled without directories. `os.path.basename` is then the name itself, and `splitext` of the joined path gives the same extension as that of the name.
- `Sessions.Decided`, `Sessions.SessionScrapLog`: an s/S key before the output file exists crashes the script, and the model does not capture this. The file does not exist on a fresh output path until the first release appends to it. `delete_records` opens it for reading (line 73), and the `FileNotFoundError` it raises is not caught (the `try` in `render_image` covers only `load_image`), so the run ends. The model treats a missing file as an empty log: scrapping gives `Advance(true)` with an empty log, and the run goes on.
- The single-file branch (line 134) calls `render_image` once and ignores its result; it has no member of its own. For a recognised file it is one `FlowVizLabeler.Labeler.Review`. For an unrecognised file the script as written raises the same `TypeError` at line 92 as in the directory loop (see Findings), while `FlowVizLabeler.Labeler.RenderImage` models the corrected skip.

## Findings

| source | as written | input that shows it | evidently intended | confidence | as-written member | corrected member |
|---|---|---|---|---|---|---|
| flow-viz-labeler.py:90-95 | The handler for an unrecognised extension calls `sys.stderr(...)`. A file object is not callable, so it raises `TypeError` and the whole run ends at the first unrecognised file in the directory. | A directory holding `a.png`, `b.txt`, `c.jpg`, with n pressed on each image: the run dies at `b.txt`, and `c.jpg` is never shown. | Report the file, skip it with the bare `return`, and continue with the next name. | not executed | `Batches.InvalidEntryAsWritten` | `Batches.InvalidEntrySkipped` |

`Batches.BatchAsWritten` and `Batches.AsWrittenStopsAtInvalid` model the
crashing loop. `Batches.Batch`, the one the rest of the model and
`FlowVizLabeler.Labeler.RunDirectory` use, skips the name instead;
`Batches.BatchVisitsPrefix` and `Batches.BatchEndsOnDisplayed` state its
behaviour.
