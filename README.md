# Playground scripts, modelled in Dafny

This project models the deterministic core of six small hobby scripts in
Dafny and proves properties of that model:

- **boids.py**: a flock of agents whose positions and velocities are updated
  once per animation frame. Three neighbour rules (separation, alignment,
  cohesion) change the velocities, velocities are clamped, positions move,
  and agents that leave the screen by more than a margin reappear on the
  opposite side. Mouse clicks add an agent or scatter the flock.
- **conway.py**: Conway's Game of Life on an N-by-N torus of 0/255 cells,
  updated through a copy of the grid, plus the glider stamp and the grid-size
  rule of `main`.
- **photomosaic.py**: the target image is split into an m-by-n grid of tiles.
  Each tile is matched to the input image with the nearest average colour,
  and the chosen images are laid out on a canvas.
- **ascii.py**: a greyscale image is cut into tiles, and the average
  brightness of each tile picks a character from a grey ramp. The rows are
  written to a text file, one per line.
- **spiro.py**: spirograph curves advance their pen angle on every timer tick.
  Once all of them are complete, the animator restarts them with fresh
  parameters.
- **ks.py** and **ks_test.py**: Karplus–Strong plucked-string synthesis (a
  damped ring buffer of noise turned into 16-bit samples), plus the note
  player's list of files. The two files carry the same `generateNote` and
  `NotePlayer`, so one module models both. The rows below cite one or the
  other.

There is one module per script: `Flocking`, `Conway`, `Photomosaic`,
`AsciiArt`, `Spirograph` and `KarplusStrong`. Two small shared modules sit
beside them:

- `Arith`: Python's `int()` as truncation toward zero, plus division facts.
- `Wrappers`: an `Option` type.

Objects whose fields the scripts update are classes: `Flocking.Boids`,
`Spirograph.Spiro`, `Spirograph.SpiroAnimator` and `KarplusStrong.NotePlayer`.
numpy grids and buffers that are mutated in place are arrays. Every
state-changing method is specified by a function of the old state, and
lemmas about those functions state what the scripts promise.

Things the model receives as inputs or parameters:

- Random draws.
- The Euclidean norm (`numpy.linalg.norm`), as a function `norm` that is
  non-negative and whose square is the sum of the squared coordinates.
- The average colour or brightness of an image crop that holds at least
  one pixel. An empty crop has no average: numpy gives NaN, which the
  models track explicitly.

## Model

| member | source | states |
|---|---|---|
| Flocking.LimitVec | boids.py:67-74 | The result's norm is at most `maxVal`. A vector already within the bound is returned unchanged. Otherwise the result has norm exactly `maxVal` and is the input scaled by `maxVal / norm(v)`, a factor strictly between 0 and 1. |
| Flocking.LimitVecZero | boids.py:70-74 | The zero vector passes the clamp unchanged. |
| Flocking.LimitAll | boids.py:76-80 | Clamping a whole array keeps its length, clamps every row independently to norm at most `maxVal`, and keeps every row already within the bound. |
| Flocking.Boids.Limit | boids.py:76-80 | The in-place loop leaves the array equal to `LimitAll` of its old contents. |
| Flocking.Wrap | boids.py:92-99 | The two sequential margin tests leave a coordinate in `[-2, extent + 2]`. |
| Flocking.WrapCases | boids.py:92-99 | Above `extent + 2` a coordinate becomes `-2`, below `-2` it becomes `extent + 2`, and inside the band it is untouched. |
| Flocking.WrapIdempotent | boids.py:92-99 | Wrapping a wrapped coordinate changes nothing. |
| Flocking.WrapPoint | boids.py:91-99 | A wrapped position lies in the arena `[-2, 642] x [-2, 482]`. |
| Flocking.WrapAll | boids.py:91-99 | Every wrapped position lies in the arena, the length is kept, and positions already in the arena are unchanged. |
| Flocking.WrapExamples | boids.py:92-95 | At width 640, `x = 645` wraps to `-2` and `x = -3` wraps to `642`. |
| Flocking.Boids.ApplyBC | boids.py:83-99 | The in-place loop leaves `pos` equal to `WrapAll` of the old positions. |
| Flocking.WithinIsDistanceBelow | boids.py:108 | The squared-distance mask holds exactly when the Euclidean distance is strictly below the radius. |
| Flocking.SeparationIsOffsetSum | boids.py:108-109 | `pos_i * count - D.dot(pos)` equals the sum of `pos_i - pos_j` over the agents `j` closer than the radius. |
| Flocking.SeparationSelfCancels | boids.py:109 | The self term cancels: separation before clamping is the offset sum over the other agents only. |
| Flocking.SeparationThreshold | boids.py:108-109 | Two agents exactly `minDist` apart do not push each other. Closer than that, the first is pushed by exactly `p - q`. |
| Flocking.FlockMaskStrict | boids.py:108-116 | An agent exactly 50 away is in neither the 50-unit mask nor the 25-unit mask. |
| Flocking.Separation | boids.py:108-112 | The clamped separation term has norm at most `maxRuleVel`. |
| Flocking.Alignment | boids.py:116-124 | The clamped alignment term has norm at most `maxRuleVel`. |
| Flocking.Cohesion | boids.py:116-133 | The clamped cohesion term has norm at most `maxRuleVel`. |
| Flocking.ApplyRules | boids.py:101-139 | One velocity change per agent, computed from the positions and velocities at the start of the frame. |
| Flocking.ApplyRulesBound | boids.py:125-139 | Each rule is clamped on its own and the sum is not clamped again, so the norm of every velocity change is at most `3 * maxRuleVel`. |
| Flocking.PairRaw | boids.py:108-131 | For two agents at least 25 but less than 50 apart, the first gets no raw separation, the sum of both velocities as raw alignment, and the second's position as raw cohesion (`D.dot(pos) - pos`). |
| Flocking.PairDelta | boids.py:108-139 | The first of two such agents changes its velocity by the clamped sum of the velocities plus the clamped position of the second. |
| Flocking.RuleSumNotClamped | boids.py:125-139 | Two agents 30 apart, both moving at unit speed along the line between them, give the first a velocity change `(0.06, 0)` of norm `2 * maxRuleVel`, above the per-rule bound. |
| Flocking.IsolatedAgent | boids.py:116-134 | An agent with no other agent within 50 has zero separation and zero cohesion. Its alignment is its own velocity clamped to `maxRuleVel`, because the mask includes the agent itself. |
| Flocking.IsolatedAgentDelta | boids.py:101-139 | The velocity change of such an agent is its own velocity clamped to `maxRuleVel`. |
| Flocking.Scatter | boids.py:158-165 | Scattering keeps one velocity per agent. |
| Flocking.ScatterExample | boids.py:165 | An agent at (0, 0), scattered from a click at (10, 0), gains velocity (-1, 0). |
| Flocking.Boids.constructor | boids.py:21-44 | The drawn positions and unit velocities become the state, with `N` agents. |
| Flocking.Boids.Tick | boids.py:46-56 | The new velocities are the clamp of the old velocities plus the rule outputs, which are computed from the starting state. The new positions are the wrap of the old positions plus the new velocities. Every speed is at most `maxVel`, every position is in the arena, and the arrays keep length `N`. |
| Flocking.Boids.ButtonPress | boids.py:141-165 | Button 1 appends the click point and a unit velocity, increments `N`, and keeps all earlier rows. Button 3 adds `0.1 * (pos_i - click)` to every velocity and keeps `pos` and `N`. Any other button changes nothing. |
| Conway.PyIndex | conway.py:66 | numpy's reading of an index in `[-N, N)` lies in `[0, N)`. A negative index counts from the end. |
| Conway.Prev | conway.py:64-67 | The toroidal predecessor index lies in `[0, N)`. |
| Conway.Succ | conway.py:64-67 | The toroidal successor index lies in `[0, N)`. |
| Conway.TorusIndices | conway.py:64-67 | `(k-1)%N` and `(k+1)%N` are the wrapped neighbours of `k`. The term `i-1%N`, which parses as `i - (1 % N)`, selects the same row as `(i-1)%N` for every `N`. |
| Conway.Rule | conway.py:75-80 | A cell that is not ON keeps its value. A live cell becomes 0 exactly when the total is below 2 or above 3, and stays 255 exactly when the total is 2 or 3. |
| Conway.NextBoard | conway.py:43-80 | The next grid is N by N, and each of its cells is the rule applied to the old grid only. |
| Conway.NoBirth | conway.py:75-80 | No cell is ever born: a cell that is not ON is never written. |
| Conway.BinaryTotal | conway.py:64-67 | On a 0/255 grid, the total as parenthesised is 255 times the live count among the first seven neighbours, plus 1 if the last neighbour is live. |
| Conway.BinaryTotalNotTwoOrThree | conway.py:64-67 | On a 0/255 grid, the total as written is never 2 or 3. |
| Conway.BinaryBoardClears | conway.py:64-80 | One update of a 0/255 grid clears every cell. |
| Conway.StaysBinary | conway.py:77-80 | Cell values stay in {0, 255} across an update. |
| Conway.Update | conway.py:40-86 | The grid is replaced in place by `NextBoard` of its old contents and keeps its N-by-N shape. |
| Conway.UpdateRow | conway.py:45-80 | Row `i` of the copy receives the next cells, and every other row of the copy is untouched. |
| Conway.UpdateCell | conway.py:75-80 | Only cell `(i, j)` of the copy may change, and it becomes the rule's result for the given total. |
| Conway.NeighbourTotal | conway.py:64-67 | The total read from the array with the script's own index expressions is the modelled `Total`. |
| Conway.AddGlider | conway.py:30-38 | The 3-by-3 block at `(i, j)` becomes the glider pattern and every other cell is unchanged. A 0/255 grid stays 0/255. |
| Conway.GliderKeepsBinary | conway.py:32-38 | Stamping the glider into a 0/255 grid leaves a 0/255 grid. |
| Conway.GliderIsBinary | conway.py:32-34 | The glider pattern is made of 0 and 255 only. |
| Conway.GridSize | conway.py:104-126 | The side is always above 8. The `--grid-size` value is used exactly on the random branch when it is given and exceeds 8. Otherwise the side is 100. |
| Photomosaic.FirstMinUnique | photomosaic.py:125-128 | The first nearest index is unique: on ties the smallest index wins. |
| Photomosaic.GetBestMatchIndex | photomosaic.py:105-130 | For an empty list the result is 0. For a NaN average, where no comparison `dis < min_dist` holds, the result is also 0. Otherwise it is an index whose squared distance is at most that of every entry and strictly below that of every earlier entry. |
| Photomosaic.TileNonEmptyIff | photomosaic.py:61-79 | A tile holds a pixel exactly when `n <= W` and `m <= H`. Otherwise `int(W/n)` or `int(H/m)` is 0 and every tile is an empty crop. |
| Photomosaic.TileInside | photomosaic.py:69-77 | Every tile box lies inside `[0, W] x [0, H]`, with its corners in order. |
| Photomosaic.TilesAbut | photomosaic.py:77 | Neighbouring tiles share their edges. |
| Photomosaic.SplitImage | photomosaic.py:61-79 | The nested loop yields `m * n` boxes in row-major order, box `j * n + i` being `(i*w, j*h, (i+1)*w, (j+1)*h)`. A negative grid size yields no boxes. |
| Photomosaic.RowMajor | photomosaic.py:73-77 | Index `j * n + i` is below `m * n`, and its column and row are `i` and `j`. |
| Photomosaic.CellOf | photomosaic.py:165-166 | `row = int(index / n)` and `col = index - n * row` give `0 <= col < n` and `index == row * n + col`. |
| Photomosaic.CellRowBound | photomosaic.py:151-166 | An index is below `m * n` exactly when its row is below `m`. |
| Photomosaic.CellOfOnto | photomosaic.py:164-166 | Every cell of the grid is the cell of the index `row * n + col`. |
| Photomosaic.CellOfInjective | photomosaic.py:164-166 | Distinct indices go to distinct cells. |
| Photomosaic.MaxOf | photomosaic.py:157-158 | `max` of a non-empty list is one of its elements and bounds all of them. |
| Photomosaic.OriginFits | photomosaic.py:161-170 | A tile no larger than the cell, pasted at the origin of an index below `m * n`, fits inside the `n*width` by `m*height` canvas. |
| Photomosaic.CreateImageGrid | photomosaic.py:145-172 | The canvas is `n * max width` by `m * max height`. Image `k` is pasted at `(col*width, row*height)` of its cell, and every pasted image lies inside the canvas. |
| Photomosaic.MatchTiles | photomosaic.py:216-220 | One output per target average, in order. Each is the first nearest input, or input 0 for a NaN average. |
| Photomosaic.CreatePhotomosaic | photomosaic.py:175-233 | Exactly one output image per target tile, in row-major tile order. Each is the input picked by the linear search on the tile's average: the first nearest for a tile with pixels, input 0 for an empty tile. When `W < n` or `H < m`, every tile gets input 0. The canvas is `n` cells wide and `m` high, a cell being the widest by the tallest chosen image. Image `t` is pasted at the origin of cell `t`, and every image fits on the canvas. |
| AsciiArt.RampLengths | ascii.py:27-29 | The 70-level literal as written has 69 characters, the corrected ramp 70, and `gscale2` 10. |
| AsciiArt.LevelRange | ascii.py:85-88 | For a brightness in [0, 255], `int((avg*top)/255)` is the integer quotient and lies in `[0, top]`: 0 for black, `top` for white. |
| AsciiArt.LevelMonotone | ascii.py:83-88 | A brighter tile never gets a smaller ramp index. |
| AsciiArt.Lookup | ascii.py:83-88 | The lookup succeeds exactly when the index lies inside the ramp, and then yields the character at that index. |
| AsciiArt.Gscale1AsWrittenOverflows | ascii.py:27 | With the 69-character literal, the lookup fails exactly for a white tile. |
| AsciiArt.Glyph | ascii.py:83-88 | The chosen character is the successful lookup in the 70-level ramp (with `moreLevels`) or in the 10-level ramp. |
| AsciiArt.GlyphEnds | ascii.py:26-29 | Black maps to the first (darkest) character of the ramp and white to the last. |
| AsciiArt.GlyphNotNewline | ascii.py:27-29 | No ramp character is a line break. |
| AsciiArt.RampsHaveNoNewline | ascii.py:27-29 | Neither ramp holds a line break. |
| AsciiArt.SpanPartition | ascii.py:59-77 | The spans along an axis partition it. The first starts at 0, the last ends at the edge, each ends where the next begins, and each lies inside the axis. |
| AsciiArt.ColumnsPartition | ascii.py:70-77 | The column tiles partition `[0, W)`: tile 0 starts at 0, the last ends at `W`, and `x2` of tile `i` is `x1` of tile `i + 1`. |
| AsciiArt.RowsPartition | ascii.py:59-66 | The row tiles partition `[0, H)` in the same way, with the last `y2` forced to `H`. |
| AsciiArt.TileInside | ascii.py:59-79 | Every crop box lies inside the image, with its corners in order. |
| AsciiArt.SpanNonEmpty | ascii.py:59-77 | A span of length at least 1, along an axis that holds all of them, is never empty. |
| AsciiArt.TileNonEmpty | ascii.py:46-79 | With at most one column per pixel (`cols <= W`) and a tile height of at least one pixel, every crop box holds a pixel. |
| AsciiArt.ConversionSucceeds | ascii.py:46-81 | Under those conditions no tile of the grid is empty, so the conversion does not fail. |
| AsciiArt.NarrowColumnsEmpty | ascii.py:46-81 | With more columns than pixels, the first crop box is empty, so with at least one row the conversion fails. |
| AsciiArt.Convert | ascii.py:46-90 | The conversion fails exactly when some tile of the grid is an empty crop, on which `int` of the NaN average raises. Otherwise the picture has `rows` strings, each of `cols` characters, and character `i` of row `j` is the ramp character of the truncated average brightness of tile `(i, j)`. |
| AsciiArt.RowsAreTiles | ascii.py:59-90 | Rows built for their vertical spans hold the characters of the grid's tiles, and every tile of the grid holds a pixel. |
| AsciiArt.ConvertRow | ascii.py:68-90 | The row fails exactly when one of its column tiles is an empty crop. Otherwise the row string has `cols` characters, one per column tile of its row, in order. |
| AsciiArt.JoinAppend | ascii.py:110-111 | Writing one more row extends the text by that row and a line break. |
| AsciiArt.Serialise | ascii.py:110-111 | The written text is the concatenation of `row + "\n"` over the rows, in order. |
| AsciiArt.LinesOfJoin | ascii.py:110-111 | Reading the text back line by line gives the rows written, when no row holds a line break. |
| AsciiArt.JoinNewlines | ascii.py:110-111 | The text has one line break per row. |
| AsciiArt.PictureReadsBack | ascii.py:59-111 | A converted picture reads back row for row and holds exactly `rows` line breaks. |
| Spirograph.GcdDivides | spiro.py:42 | The gcd of two integers that are not both zero is positive and divides both. |
| Spirograph.GcdGreatest | spiro.py:42 | Every common divisor divides the gcd. |
| Spirograph.PeriodicityFacts | spiro.py:42-44 | For `r >= 1`, `nRot = r // gcd(r, R)` is at least 1, divides `r`, satisfies `r == nRot * gcd`, and is coprime to `R // gcd`. |
| Spirograph.ReducedCoprime | spiro.py:41-44 | Dividing both radii by their gcd leaves a coprime pair. |
| Spirograph.CompletionTime | spiro.py:90-111 | From angle 0 with step 5, a spiro is incomplete with angle `5k` for the first `72 * nRot - 1` ticks. It completes on tick `72 * nRot` with angle exactly `360 * nRot` and then stays so. The angle never exceeds `360 * nRot`. |
| Spirograph.RangeShape | spiro.py:75 | A positive-step `range` that overshoots its last element by at most one step has `m + 1` elements, `start + k * step`. |
| Spirograph.DrawAngles | spiro.py:75 | `draw` visits 0, 5, ..., `360 * nRot`, which is `72 * nRot + 1` angles. |
| Spirograph.RadiusRange | spiro.py:139-140 | For `R >= 50` the range of `r` is not empty, and every `r` in it has `0 < r < R`, so `k = r / R` lies in (0, 1). |
| Spirograph.RandomParamsUsable | spiro.py:136-149 | Drawn parameters have `R != 0`, a periodicity of at least 1, and a ratio `k = r / R` strictly between 0 and 1, so the restart's division by `k` is safe. |
| Spirograph.Spiro.constructor | spiro.py:12-27 | Needs `R` and `r` non-zero, since `setparams` divides by `R` and `restart` by `k = r / R`. Step 5, incomplete, parameters stored with `k = r / R`, periodicity computed, angle 0. |
| Spirograph.Spiro.SetParams | spiro.py:29-51 | Stores the parameters with `k = r / R`, sets `nRot` to the periodicity, resets the angle to 0, and keeps the flag. |
| Spirograph.Spiro.Restart | spiro.py:53-66 | Needs `k != 0`, since the starting point divides by `k`. Clears the completion flag and changes nothing else of the modelled state. |
| Spirograph.Spiro.Update | spiro.py:90-111 | A complete spiro is unchanged. Otherwise the angle grows by exactly `step` and the flag becomes true exactly when the new angle reaches `360 * nRot`. The parameters are kept. An incomplete tick needs `k != 0`, since the pen position divides by `k` (spiro.py:101-102). |
| Spirograph.Spiro.Draw | spiro.py:71-75 | The loop visits exactly the angles of `range(0, 360*nRot + 1, step)`. |
| Spirograph.CountComplete | spiro.py:175-181 | The count of complete spiros is at most their number. |
| Spirograph.CountCompleteAll | spiro.py:180-183 | The count equals the number of spiros exactly when every spiro is complete. |
| Spirograph.AdvanceAll | spiro.py:176-178 | Every spiro's progress after one tick, in order. |
| Spirograph.SpiroAnimator.constructor | spiro.py:117-132 | One fresh spiro per drawn parameter tuple, all distinct, with the restart flag off. Spiro `i` has progress `(0, nRot, incomplete)` and carries parameter tuple `i` with `k = r / R`. Every ratio `k` is non-zero. |
| Spirograph.SpiroAnimator.Restart | spiro.py:151-169 | If a restart is already under way, nothing changes: progress and parameters are kept. Otherwise spiro `i` gets fresh progress and parameter tuple `i` with `k = r / R`, every ratio is non-zero, and the flag ends false. |
| Spirograph.SpiroAnimator.RestartAsWritten | spiro.py:151-161 | As written, a restart with at least one spiro raises at `spiro.clear()` and leaves the flag set. Every later call then returns at once, and no spiro's progress or parameters change. |
| Spirograph.SpiroAnimator.TickAll | spiro.py:175-181 | Given non-zero ratios, every spiro advances one tick, its parameters are kept, and the count is the number of complete spiros afterwards. |
| Spirograph.SpiroAnimator.Update | spiro.py:172-184 | The count is that of the advanced spiros. When all are complete, spiro `i` restarts with fresh progress and parameter tuple `i`. Otherwise every spiro has its advanced progress and its old parameters. The restart flag stays false, and the ratios stay non-zero. |
| Spirograph.RestartWhenAllComplete | spiro.py:180-184 | The animator restarts exactly when every spiro reports complete after its own tick. |
| KarplusStrong.ScaleBufferLengths | ks.py:26-59 | Every note of the pentatonic scale gets a ring buffer of at least two values (168, 141, 126, 112 and 94), so `buf[1]` exists. |
| KarplusStrong.SampleBound | ks.py:72-79 | Noise in [-0.5, 0.5] keeps every sample of the recurrence in [-0.5, 0.5]. |
| KarplusStrong.Int16Bound | ks.py:89 | A sample in [-0.5, 0.5] converts to a 16-bit value in [-16383, 16383], so nothing wraps around. |
| KarplusStrong.StepBuffer | ks.py:77-79 | One step of the full deque drops the front and appends the damped average of the first two values: the buffer is again the next `N` samples of the recurrence. |
| KarplusStrong.RingBuffer | ks.py:74-79 | The loop writes `samples[k]` equal to sample `k` of the recurrence: the noise for `k < N`, and `0.995 * 0.5 * (s[k-N] + s[k-N+1])` afterwards. |
| KarplusStrong.GenerateNote | ks.py:54-91 | 44100 values, each `int16(s * 32767)` of the recurrence's sample and each in [-16383, 16383]. |
| KarplusStrong.NotePlayer.constructor | ks.py:108 | The list of notes starts empty. |
| KarplusStrong.NotePlayer.Add | ks.py:122-123 | The file name goes to the end and the other entries are kept. |
| KarplusStrong.NotePlayer.PlayRandom | ks.py:147-151 | An empty list yields nothing, since `randint` raises. Otherwise the note at the drawn index in `[0, len - 1]`. |
| KarplusStrong.NotePlayer.AddScale | ks_test.py:150-160 | Registers `name + ".wav"` for every scale note, in order, after the existing entries. |
| KarplusStrong.ScaleIsPlayable | ks_test.py:123-127 | After registration five notes exist, and a random note is one of the scale's files. |

## Left out

- Rendering, animation and drawing are left out: matplotlib, turtle, boid heads, `img.set_data`, and the pen positions of the spirograph. They are output only.
- Trigonometry and square roots are left out: the spirograph curve formulas, the random headings of boids (taken as unit vectors), and `pdist`/`norm` (an abstract norm). Real-number models of them would need axioms.
- Random draws are left out: boid positions and headings, the random Conway grid, spiro parameters, KS noise and rests. They are inputs constrained to the ranges the scripts draw from.
- File, image and audio I/O is left out: `writeWAVE`, `NotePlayer.play` and pyaudio, PIL `open`/`crop`/`paste`, `getImages`, and the ascii file handle. The model works on sizes, boxes, average colours and strings instead.
- Image averaging (`getAverageRGB`, `getAverage`) is left out and taken as the input functions `tileAvg`. The broken `getAverageRGBOld` is not modelled.
- `getBestMatchIndiciesKDT` is left out: it calls scipy's `KDTree`, a foreign library.
- The no-reuse branch of `createPhotomosaic` is left out. It removes an undefined name `match`, and the removal would make `avgs` disagree with `input_images`.
- Command-line parsing is left out, except conway.py's grid-size rule.
- float32 storage of the Karplus–Strong samples is left out: samples are exact reals.
- The boids `distMatrix` cache field is left out. It is recomputed on every call and read nowhere else.
- `addGosperGliderGun` and `randomGrid` are left out. The first is not defined in conway.py, and the second is randomness.
- Conway's `ON` is never defined in conway.py. It is taken as 255, the value its comments give.
- photomosaic.py has typos that the model replaces with the evidently intended code:
  - the body of `splitImage`'s inner loop is not indented under it, which is an IndentationError;
  - `lin` is written for `len`;
  - `sizw` is written for `size`;
  - `output_images = {}` is a dict that is then appended to, and is modelled as a list.
- ascii.py reads `fileName`, `cols`, `scale`, `moreLLevels`, `outFile` and `gscale` without defining them (argparse would store the flag as `moreLevels` and the file as `imgFile`):
  - the first five are parameters, `moreLLevels` being the parameter `moreLevels`;
  - `gscale` is taken as `gscale1` with its missing `%` restored (see Findings).
- Spirograph.SpiroAnimator.Restart and Spirograph.SpiroAnimator.Update describe the evidently intended restart, without `spiro.clear()`: as written that call raises `AttributeError` (see Findings). Clearing a drawing is not modelled.
- Spirograph.Spiro.constructor requires `r != 0`: with `r = 0`, `k` is 0.0 and `restart` raises `ZeroDivisionError` at spiro.py:65. It also requires `R != 0`, on which `setparams` raises.
- Spirograph.Spiro.constructor takes integer radii. With `--sparams`, the script passes floats, stores `int(R)` and `int(r)`, and computes `k` from the untruncated values; that is not modelled.
- The timer is left out: `turtle.ontimer` rescheduling and `deltaT` beyond its value.
- Spirograph.Periodicity returns 0 when both radii are 0, where Python's `r // 0` raises. `setparams` never reaches that case, because it also divides by `R`.
- Flocking.IsNorm is an assumption that the norm parameter is the Euclidean norm. It is not a computation of it.
- AsciiArt.Convert requires the average of every crop that holds a pixel to lie in [0, 255]. Empty crops are not averaged: the conversion fails on the first one, where the script raises `ValueError`.
- AsciiArt.Convert requires `W > 0`, a non-zero `cols` and a non-zero `scale`. Otherwise the script divides by zero computing `w`, `h` or `rows`.
- Python floats (float64) are taken as exact reals in the boids, ascii and photomosaic models, so rounding is not modelled. For instance, with `W = 102` and `cols = 42`, ascii.py's `int(21 * (102/42))` is 50 in float64, while the model's exact value is 51. Likewise Flocking.LimitVec's clamped norm equals `maxVal` only over the reals.
- Photomosaic.SplitImage requires non-zero `m` and `n`. With either at 0, `int(W/n)` or `int(H/m)` raises `ZeroDivisionError` at photomosaic.py:69.
- KarplusStrong.GenerateNote requires a positive frequency whose buffer holds at least two values. For `freq > 22050` the buffer has fewer than two values, and `buf[1]` (or `buf[0]`) raises `IndexError`. A zero frequency divides by zero, and a negative one gives `deque` a negative `maxlen`, which raises `ValueError`.
- Conway.AddGlider requires the 3-by-3 block to lie inside the grid. The script only stamps it at `(1, 1)`. numpy would clip a block that sticks out past the far edge and then reject the shape, and would count a negative index from the end.
- Photomosaic.CreatePhotomosaic requires at least one input image: with none, the script indexes an empty list and raises `IndexError`.
- Photomosaic.CreateImageGrid requires positive `m` and `n`. A grid with negative sides would pass the script's assertion but gives PIL a negative canvas size, which it rejects.
- KarplusStrong.GenerateNote returns the 16-bit values as integers, not their byte string (`tobytes`).
- KarplusStrong.NotePlayer.PlayRandom returns the chosen file name; playing it is audio output.

## Findings

| source | as written | input that shows it | evidently intended | confidence | as-written member | corrected member |
|---|---|---|---|---|---|---|
| spiro.py:161 | `restart` calls `spiro.clear()`, but `Spiro` has no `clear`, so `AttributeError` is raised after `restarting` was set to True. Every later restart returns at once. `update` propagates the error from its restart call, so it never reaches `turtle.ontimer` and the animation stops. | Any animator with at least one spiro whose spiros all become complete (spiro.py:182-184). The space key cannot show it: spiro.py:271 binds the animator object itself, which defines no `__call__`, so a press fails in the key handler before reaching `restart`. | Clear each spiro's turtle (`spiro.t.clear()`), then set new parameters and restart as the loop goes on to do. | not executed | Spirograph.SpiroAnimator.RestartAsWritten | Spirograph.SpiroAnimator.Restart |
| ascii.py:27 | The "70 levels" ramp literal has 69 characters, so `gscale[int((avg*69)/255)]` at ascii.py:85 indexes past its end. | A white tile, `avg = 255`, gives index 69 in a string of length 69 (`IndexError`). | A 70-character ramp whose last index is 69: the literal with the `%` after `B` restored, as in the ramp the comment at ascii.py:16 links to. Only the `%` is restored; the other characters are the script's. | not executed | AsciiArt.Gscale1AsWrittenOverflows | AsciiArt.Glyph |
