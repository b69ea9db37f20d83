# Box detection batch tool: a Dafny model of its decision logic

The tool reads `.tiff` images from a directory in batches, finds interest
points on each image (edge map, corner response, local-maximum
reinforcement), fits rotated rectangles to the reinforced contours, drops
rectangles that duplicate a slightly larger neighbour, outlines the
survivors that pass a size/position rule, and writes two files per image.
This project models the parts of `main.cpp` that make decisions and proves
what they do:

- `arguments.dfy`, module `Arguments`: the global configuration as a class
  (`Globals`), `argumentHandler` with its exit codes 2 / 1 / -1 / 0 and the
  paths it builds, and `main`'s choice of the colour and the mono pipelines
  (a selector of 0 runs both, with no paths built).
- `corners.dfy`, module `Corners`: the local-maximum search over the
  normalised corner-response map (offsets in `[-r, r)`, coordinates clamped
  with `min(max(v, 0), n)`, ties mark, only pixels above the threshold). The
  clamp's upper bound is the row (column) count itself, so the search can
  read one row and one column past the map; the grid is an `array2` with one
  extra row and column that stands for those cells. The map is one
  continuous row-major buffer, so the extra column's cell `(x, cols)` is map
  pixel `(x + 1, 0)` for every `x < rows - 1` (`RowMajorWrap`); only the
  extra row and the cell `(rows - 1, cols)` lie past the end of the buffer.
- `rects.dfy`, module `Rects`: the all-pairs deduplication of fitted
  rectangles, the draw rule (area band, or area above 200000 with the centre
  near a corner; the centre's `x` is compared with the row count and `y`
  with the column count, as in the code), and the per-image selection.
- `batch.dfy`, module `Batch`: the read/accumulate/flush loop with its
  batch-size arithmetic, in two variants: `AsWritten`, which runs the slot
  loop to `batch_size` and names slot `j` after file `i - batch_size + j` in
  `size_t` arithmetic, and `Corrected`, which runs over the buffer and names
  each image after its own file. Reads outside a vector are undefined
  behaviour in the tool; the model stops there and records the access in the
  run's status.

The model follows the code of `main.cpp` in these points: the search window
is `2r x 2r` (offsets `[-r, r)`), not `(2r+1) x (2r+1)`; the clamp reaches
index `rows` (`cols`), not `rows - 1`; a failed decode breaks out of the file
loop, so no later image is read; deduplication runs over every fitted
rectangle before the draw rule is applied; equal areas never suppress each
other, so no tie-break depends on the order of the candidates (suppression
needs a strictly larger area); and two close rectangles do not always leave
exactly one survivor, because a rectangle is also dropped by a candidate that
is itself dropped.

## Model

| member | source | states |
|---|---|---|
| Arguments.HandlerCode | main.cpp:30-81 | exit code 0 iff more than four words and (not exactly five or batch size >= 1); -1 iff exactly five words with batch size < 1; 1 iff two to four words; 2 iff at most one word |
| Arguments.Pipelines | main.cpp:436-443 | at least one pipeline runs; both iff the selector is 0; mono is skipped iff the selector >= 1; colour is skipped iff the selector <= -1 |
| Arguments.Globals.constructor | main.cpp:13-18 | the globals start empty, selector 0, both colour states 0, batch size 4 |
| Arguments.Globals.ArgumentHandler | main.cpp:30-81 | returns HandlerCode; with more than four words stores selector and directories, builds the colour paths and state only for selector >= 1 and the mono ones only for <= -1; with exactly five words overwrites the batch size even when it then reports -1; otherwise changes nothing |
| Arguments.Launch | main.cpp:431-446 | exit 1 on any nonzero handler code and no pipeline runs; on exit 0 the batch size is >= 1 and the pipelines are Pipelines(selector); a colour-only run has the colour paths, a mono-only run the mono paths, and a selector of 0 runs both with empty retrieve patterns |
| Corners.Clamp | main.cpp:158-159 | the clamped coordinate lies in `[0, n]` with `n` included, is the identity there and maps below-range to 0 and above-range to `n` |
| Corners.LocalMaximum | main.cpp:151-167 | true iff no clamped sample of the `[-r, r) x [-r, r)` window exceeds the pixel's own value (ties count as a maximum) |
| Corners.Reinforce | main.cpp:149-173 | a pixel is marked iff it lies in the map, its value exceeds the threshold and it is a window maximum; marks are in row-major scan order without repeats |
| Corners.NearbyMarksTie | main.cpp:151-170 | two marked pixels inside each other's window have equal values |
| Corners.GridMaximumIsMarked | main.cpp:151-170 | a pixel above the threshold that is at least every grid value is marked |
| Corners.LastRowReadsPastEnd | main.cpp:158-167 | with radius >= 2 a marked pixel on the last map row is at least the cell one row past the map, which the clamp reads |
| Corners.RightEdgeReadsNextRow | main.cpp:158-167 | on the continuous buffer, with radius >= 2 a marked pixel on the last column above the last row is at least the first pixel of the next row, which the clamp to `cols` reads |
| Corners.ReinforceMap | main.cpp:149-173 | with the tool's radius 60 and threshold 80, a pixel is marked iff it is in the map, above 80 and a window maximum, in scan order, and every marked last-column pixel above the last row is at least the first pixel of the next row |
| Rects.KeptIndices | main.cpp:187-204 | the saved indices are strictly increasing and are exactly the candidates no candidate suppresses |
| Rects.Deduplicate | main.cpp:187-204 | the loop's saved list is the kept candidates in input order |
| Rects.SavedMembers | main.cpp:187-204 | a rectangle is saved iff some candidate equal to it is suppressed by no candidate |
| Rects.SuppressionNeedsLargerArea | main.cpp:192-193 | suppression needs a strictly larger area: nothing suppresses itself and equal areas never suppress either way |
| Rects.SuppressesAsProduct | main.cpp:190-196 | for a non-negative area the quotient test is equivalent to `area(l) < ratio * area(k)` |
| Rects.CloseSymmetric | main.cpp:190-191 | the centre-distance test is symmetric |
| Rects.LargestIsSaved | main.cpp:187-204 | a candidate of maximal area always survives |
| Rects.SavedNonEmpty | main.cpp:187-204 | a non-empty candidate list keeps at least one rectangle |
| Rects.ClosePairKeepsLarger | main.cpp:187-204 | of two close candidates within the area ratio only the larger survives, in either input order |
| Rects.ChainDropsSuppressedSuppressor | main.cpp:187-204 | when b suppresses a and c suppresses b, only c survives: a dropped candidate still suppresses others |
| Rects.TruncateTowardZero | main.cpp:228-229 | the float-to-int centre conversion rounds toward zero |
| Rects.RoundHalfEven | main.cpp:213 | the integer size component is within 0.5 of the float one, and halves go to the even neighbour |
| Rects.DrawRules | main.cpp:215-242 | inside the area band a rectangle is always drawn; at or below 200000 never; at or above 9000000 exactly when the centre is near a row edge and near a column edge |
| Rects.DrawDecision | main.cpp:215-242 | the tool's if/else-if decision equals the declarative draw rule on the rounded area and the truncated centre |
| Rects.OutlinedUpTo | main.cpp:206-243 | the rectangles outlined from the first n saved ones number at most n and are exactly those among them that satisfy the draw rule |
| Rects.Outlined | main.cpp:206-243 | the outlined list is no longer than the saved list and holds exactly the saved rectangles that satisfy the draw rule |
| Rects.DrawSaved | main.cpp:206-243 | the drawing loop outlines exactly Outlined of the saved list, in order |
| Rects.SelectRects | main.cpp:185-243 | a rectangle is outlined iff it satisfies the draw rule and is a candidate no candidate suppresses, with margin 300 and ratio 1.25 |
| Batch.OutputPaths | main.cpp:247-249 | the annotated-image path is `processed_`, then the save directory, then the input file's name (the prefix goes in front of the directory, not the file name); the reinforced-map path is that path behind `interestpoint_` |
| Batch.FlushFrom | main.cpp:125-252 | every image written by a flush comes from the buffer being flushed |
| Batch.FlushBatch | main.cpp:125-252 | the slot loop's writes and ending equal FlushFrom from slot 0 |
| Batch.ProcessFiles | main.cpp:110-257 | the file loop's batches, writes and ending equal Process |
| Batch.CorrectedRunIsComplete | main.cpp:112-256 | with every file decodable the corrected loop completes, flushes `[0, b)`, `[b, 2b)`, ... with a short last batch, and writes every file once, in order, under its own name |
| Batch.CorrectedFlush | main.cpp:125-252 | a corrected flush writes each buffered file under its own name |
| Batch.CorrectedLoop | main.cpp:112-256 | from any file index, the corrected loop flushes the remaining batches and writes the remaining files under their own names |
| Batch.ChunksPartition | main.cpp:122 | the batches concatenate to the whole file list in order, each holds 1 to b files, and all but the last hold exactly b |
| Batch.BatchesNeverExceed | main.cpp:120-122 | in either variant every flushed batch holds between 1 and b images |
| Batch.ReadFailureStops | main.cpp:115-119 | in either variant an undecodable file ends the run unfinished, and neither it nor any later file is in a flushed batch or written |
| Batch.FirstFlushNameWraps | main.cpp:122-125 | as written, nothing is ever written: the first flush names slot 0 after index `2^64 + p - b` (p the first flush point), past the file list |
| Batch.AsWrittenLaterFlush | main.cpp:125-126 | as written, a flush after the first names slot j after file `i - b + j` while holding file `i + 1 - size + j` (one file apart for a full batch) and, for a partial batch, reads slot `size` past the buffer |

## Left out

- Image decoding, directory globbing, image writes and console output: a file
  is its index, a decode is a given success flag, and a write is the file
  index with the name it is saved under (`OutputPaths` gives the two paths).
- Blurring, grey conversion, edge detection, corner response, normalisation,
  contour tracing and rectangle fitting, the padding by 1% of the rows, gamma
  correction and contrast adjustment: OpenCV primitives and floating-point
  image arithmetic; the model starts from their outputs (the truncated
  response grid, the fitted rectangles).
- The link between reinforcement marks, discs and the contours they create
  is not modelled; `Reinforce` records the marked pixels and the rectangle
  stage takes the fitted rectangles as input.
- Random colours, disc and line drawing: they do not affect any decision.
- `atoi`: command-line words 1 and 4 arrive as integers.
- `processMonoImages` is the same loop and selection as the colour one; the
  `Batch` and `Rects` modules model both.
- Floating-point rounding of areas, quotients and distances: modelled as real
  arithmetic. `Rects.Close` compares squared distances, equal to the norm test
  on reals.
- Undefined behaviour past a vector's end: the model stops at the first such
  access instead of modelling what the memory would hold.
- Batch.AsWrittenLaterFlush: describes a flush after the first one on its own;
  in the as-written loop no run reaches such a flush, because the first flush
  already stops.

## Findings

| source | as written | input that shows it | evidently intended | confidence | as-written member | corrected member |
|---|---|---|---|---|---|---|
| main.cpp:247-248 | the output name of slot `j` is `file_names[i - batch_size + j]` in `size_t` arithmetic | batch size 4 and four readable files: the flush at `i = 3` names slot 0 after index `2^64 - 1` | name slot `j` after the file it was read from, `i + 1 - buffer size + j` | not executed | Batch.FirstFlushNameWraps | Batch.CorrectedRunIsComplete |
| main.cpp:125-126 | the slot loop runs to `batch_size` even when the final batch is partial | batch size 4 and six files: a flush at `i = 5` holds files 4 and 5 and reads slot 2 (the loop as written already stops at its first flush) | run the slot loop over the images in the buffer | not executed | Batch.AsWrittenLaterFlush | Batch.CorrectedRunIsComplete |
