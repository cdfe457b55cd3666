# ascii-art-show, modelled in Dafny

ascii-art-show is a terminal slideshow. It runs a sequence of "art modules"
(Mandelbrot, plasma, Game of Life, ...), each for a fixed number of seconds.
The modules draw into a character-cell screen buffer. A diff renderer then
writes to the terminal only the cells that changed since the last frame. A
small key-handling layer pauses the show, shows a HUD, steps between slides
and quits.

This project models the core of that program and proves what it does:

| module | file | models |
|---|---|---|
| `Cells` | cells.dfy | `Color`, `Cell` (the source's `ScreenCell`), the output tokens of a flush |
| `Buffer` | buffer.dfy | buffer.c: the `current_buffer`/`prev_buffer` pair as a class over arrays, clipped writes, text, lines, clearing, flushing |
| `Diff` | diff.dfy | what `buffer_flush` writes, and what a terminal that obeys it shows |
| `Line` | line.dfy | the Bresenham loop of `buffer_draw_line` as the sequence of points it plots |
| `Palette` | palette.dfy | the palette table and `get_palette_color`, in exact real arithmetic |
| `Config` | config.dfy | `Configuration`, the INI `handler`, `get_current_palette` |
| `Terminal` | terminal.dfy | `term_get_key` as a decoder of the waiting bytes; the resize flag with `handle_winch`/`term_has_resized` |
| `Life` | life.dfy | art_gameoflife.c: the `world`/`next_world` arrays, `gol_init`, `gol_update`, `gol_draw` |
| `Registry` | registry.dfy | the module registry of main.c, `handle_input`'s key dispatch, the `-s` lookup and `shuffle_modules` |
| `Slideshow` | slideshow.dfy | the main loop of main.c as a state machine over its globals and an ordered log of the calls it makes |

Some parts are state that the source updates in place. These are classes
whose methods are proved against specification functions on sequences:

- the two screen buffers;
- Game of Life's arrays;
- the resize flag and the input stream;
- the configuration and the palette index;
- the main loop's variables.

The rest is modelled as functions with lemmas: the flush output, the line
points, the palette colour, the key decoder and the key dispatch.

Time, terminal size, the bytes waiting on standard input, `rand()`, `atoi`
and the success of `malloc` are all parameters.

The art modules' own callbacks (other than Game of Life's) are not modelled.
The main loop records each call to `init`, `update`, `draw`, `destroy` or a
module's `handle_input` as an `Effect`, in order. It records the buffer
operations and the two sleeps the same way.

## What the code does where it might be read otherwise

The model follows the code in each of these cases.

- **Colour channels.** A blended channel is truncated, as the
  `(unsigned char)` cast does, not rounded (config.c:107-109).
  `Palette.Blend` truncates.
- **`t = 1`.** `fmodf` folds `t = 1` to 0, so it gives the first stop,
  not the last (config.c:83-84). See `Palette.OneIsFirstStop`.
- **The stop after the last.** `index2` is computed as
  `(index1 + 1) % num_colors`, but for t in [0, 1) the modulo never
  wraps, because `index1 <= k-2` (config.c:98-100). See `Palette.NoWrap`.
- **Duration and frame rate.** Neither is checked: `atoi` of any text is
  stored (config.c:44-47, main.c:91-92). A zero duration makes `progress`
  a non-finite double; this is `Progress.NotFinite`.
- **First flush.** The comment at buffer.c:26 says the dirty marks force a
  full redraw on the first flush, but `buffer_flush` never reads `dirty`.
  This is the second row of "Findings".
- **Quitting.** `q` leaves the loop with `goto cleanup`, which skips the
  active module's `destroy` (main.c:146, 173, 221-229). See
  `Slideshow.QuitSkipsDestroy`.
- **Colour escapes.** `last_fg`/`last_bg` start at `{-1, -1, -1}`, which
  is white once stored in `unsigned char` channels, so a flush treats
  white as already set although the terminal is at its default colours.
  This is the third row of "Findings".

## Model

| member | source | states |
|---|---|---|
| Buffer.IndexInRange | buffer.c:93-95 | an in-grid (x, y) has row-major index `y*w+x` in `[0, w*h)`, and that index gives back its row `y` and column `x` |
| Buffer.PlotSpec | buffer.c:90-97 | a clipped write changes exactly cell `y*w+x` when (x, y) is on the grid (to the new character and colours), and nothing otherwise |
| Buffer.PlotTextSpec | buffer.c:99-105 | character `c-x` of the text lands at column `c` of row `y` when on the grid; each write is clipped on its own; no cell outside that row segment changes (no wrapping) |
| Buffer.PlotPointsSpec | buffer.c:108-120 | plotting a list of points stamps exactly the in-grid points' cells with the character and colours, and leaves every other cell unchanged |
| Buffer.PlotPathHead | buffer.c:111-118 | plotting a walk's path is plotting its current point, then the rest of the path |
| Buffer.LineStampsEndpoints | buffer.c:108-120 | a line stamps both endpoints when they are on the grid, always on a black background, and changes no cell that none of its points covers |
| Buffer.ClearedSpec | buffer.c:41-47 | after clearing, every cell is a space, white on black; clearing again changes nothing |
| Buffer.CStringIsPrefix | buffer.c:101 | the text drawn is exactly the prefix before the first NUL |
| Buffer.FirstFlushMaySkipCell | buffer.c:23-27 | although the dirty marks are meant to force a full redraw, a blank current cell whose colours equal the uninitialised shadow cell's is not redrawn by the first flush |
| Buffer.FixedFirstFlushRedrawsAll | buffer.c:23-27 | after `init_buffer` marks every shadow cell dirty, the corrected flush moves the cursor to every one of the cells, whatever the current grid holds |
| Buffer.Grid.SetChar | buffer.c:135-142 | `buffer_set_char` is the clipped write `Plot` on the grid's cells |
| Buffer.Screen.Init | buffer.c:9-29 | succeeds iff both allocations do; on success both grids have the new size and are fresh; the current grid holds the allocator's bytes; the previous grid holds spaces marked dirty, in the allocator's colours |
| Buffer.Screen.Destroy | buffer.c:36-39 | afterwards neither grid is live |
| Buffer.Screen.Resize | buffer.c:31-34 | is a destroy followed by an init at the new size, with the same outcomes as `Init` |
| Buffer.Screen.Clear | buffer.c:41-47 | the current grid becomes `Cleared` of its old contents; the previous grid is unchanged |
| Buffer.Screen.DrawChar | buffer.c:90-97 | the current grid becomes `Plot` of its old contents; the previous grid is unchanged |
| Buffer.Screen.DrawText | buffer.c:99-105 | the current grid becomes `PlotText` of the characters before the NUL; the previous grid is unchanged |
| Buffer.Screen.DrawLine | buffer.c:108-120 | the current grid becomes `PlotPoints` over the Bresenham points, black background; the previous grid is unchanged |
| Buffer.Screen.CellOut | buffer.c:65-79 | the tokens written for one redrawn cell are `CellTokens` at that cell's index: a cursor move, a colour escape only for a colour that differs from the last one emitted, then the character |
| Buffer.Screen.RowChanges | buffer.c:56-81 | the tokens for row y, followed by the tokens for the rows after it, are the tokens from the start of row y, under the chosen redraw test; the colours last emitted carry over |
| Buffer.Screen.Changes | buffer.c:52-82 | the two loops write `DiffFrom` the first cell, under the chosen redraw test, with both running colours starting at `start` |
| Buffer.Screen.Commit | buffer.c:87 | afterwards the previous grid equals the current one, which is unchanged |
| Buffer.Screen.Flush | buffer.c:49-88 | returns `FlushTokens` of the old grids (running colours starting at 255,255,255, `dirty` not read); the current grid is unchanged; afterwards the previous grid equals the current one |
| Buffer.Screen.FixedCommitCells | buffer.c:86-87 | the corrected commit: the previous grid becomes `FixedCommit` of the current one, which is unchanged |
| Buffer.Screen.FixedFlush | buffer.c:49-88 | the corrected flush: returns `FixedFlushTokens` of the old grids (no colour counted as emitted, dirty cells redrawn) and leaves the previous grid as `FixedCommit` of the current one |
| Diff.Pos | buffer.c:66 | the 1-based cursor position of a cell is on screen, with its column within the width |
| Diff.PosInjective | buffer.c:55-66 | distinct cells have distinct cursor positions |
| Diff.MoveIffChanged | buffer.c:55-66 | from cell k on, the cursor moves to cell i's position iff cell i passes the redraw test: as written, its character, fg or bg differs from the previous frame; corrected, that or the previous cell is marked dirty |
| Diff.NoMoveBefore | buffer.c:55-82 | cells before k are never addressed by the tokens for cells k on |
| Diff.FlushAddressesChangedCells | buffer.c:55-82 | a whole flush moves to (row y+1, column x+1) iff that cell changed |
| Diff.FixedFlushAddresses | buffer.c:23-27 | the corrected flush moves to a cell iff it changed or the previous grid marks it dirty |
| Diff.UnchangedNoTokens | buffer.c:55-64 | when no cell from k on passes the redraw test, the flush writes nothing for them |
| Diff.SecondFlushIsQuiet | buffer.c:49-87 | once the previous grid equals the current one, a flush writes only the hide-cursor and reset controls |
| Diff.FixedSecondFlushIsQuiet | buffer.c:86-87 | after the corrected commit, which clears the dirty marks, the corrected flush of the same grid writes only the hide-cursor and reset controls |
| Diff.CellTokensCoalesced | buffer.c:68-77 | one cell's tokens followed by coalesced tokens are still coalesced |
| Diff.DiffCoalesced | buffer.c:66-79 | no colour escape repeats the colour last emitted for its plane |
| Diff.PlayAppend | buffer.c:50-83 | playing two token lists in turn is playing their concatenation |
| Diff.CellTokensPaint | buffer.c:66-79 | from any terminal state, one cell's tokens put its character at its position; each plane is in the cell's colour if an escape was written for it and in the terminal's current pen otherwise, and the terminal keeps those pens |
| Diff.DiffPaints | buffer.c:55-82 | while the terminal holds every colour the renderer believes it emitted, the tokens for cells k on paint exactly the redrawn cells, each with its own character and colours |
| Diff.PaintedAt | buffer.c:55-82 | the painted screen holds each redrawn cell's glyph at its position and the old glyph at every position no redrawn cell touches |
| Diff.PlayFrame | buffer.c:50-83 | the hide-cursor control leaves the screen alone, and the closing attribute reset leaves the terminal at its default colours |
| Diff.FixedFlushPainted | buffer.c:49-88 | the corrected flush, from any terminal state, paints the redrawn cells with their own glyphs and ends at the default colours |
| Diff.FixedFlushPaints | buffer.c:49-88 | the corrected flush, from any terminal state, shows every changed or dirty cell in its own character and colours, leaves every other position as it was, and ends at the default colours |
| Diff.DiffShows | buffer.c:52-82 | from a terminal at its default colours with the running colours at the wrapped -1, the tokens for cells k on paint each changed cell in its `ShownPen`s |
| Diff.FlushShown | buffer.c:49-88 | a flush as written, from the default colours, paints with `Shown` and ends at the default colours again, so every later flush also starts there |
| Diff.FlushShows | buffer.c:49-88 | a flush as written, from the default colours, shows each changed cell's character with each plane in the default colour until some changed cell up to it has a non-white colour on that plane, and in the cell's own colour from then on; every other position is left as it was |
| Diff.WhiteShownAsDefault | buffer.c:52-53 | a changed cell that is white on a plane, with no earlier changed cell of another colour on that plane, is shown in the default colour by the flush as written and in white by the corrected flush |
| Diff.CellTokensNoEscape | buffer.c:68-77 | a cell in the last emitted colours costs only a cursor move and its character |
| Line.NoOvershoot | buffer.c:116-118 | an axis already on target never steps again |
| Line.Advance | buffer.c:116-118 | the step the loop body takes is `Next`; from any point other than the target it keeps the invariant and strictly reduces the distance still to go |
| Line.StepOk | buffer.c:111-119 | each step keeps the loop invariant, moves each coordinate by at most 1 and never away from the target, and advances the major axis by exactly 1 |
| Line.StartOk | buffer.c:109-111 | the invariant holds when the loop starts |
| Line.PathShape | buffer.c:111-119 | the path starts at the current point, ends at the target and has `remaining major distance + 1` points |
| Line.PathSteps | buffer.c:111-119 | consecutive points are distinct 8-neighbours, each closer to the target |
| Line.PointsSpec | buffer.c:108-120 | the line starts at (x0, y0), ends at (x1, y1), has `max(abs(x1-x0), abs(y1-y0)) + 1` points, and every step moves each coordinate by at most 1 towards the target |
| Line.ShallowSample | buffer.c:108-120 | the line from (0, 0) to (4, 2) plots (0, 0), (1, 1), (2, 1), (3, 2), (4, 2) |
| Line.HorizontalPath | buffer.c:111-119 | a horizontal walk visits every column in turn |
| Line.DiagonalStep | buffer.c:116-118 | on a 45-degree segment each step moves both coordinates one cell towards the target and keeps the two distances equal |
| Line.DiagonalPath | buffer.c:111-119 | a 45-degree walk steps both coordinates every time |
| Line.HorizontalLine | buffer.c:108-120 | a line along a row plots exactly the cells x0..x1 |
| Line.DiagonalLine | buffer.c:108-120 | a 45-degree line plots exactly the diagonal cells |
| Palette.Padded | config.c:9-34 | the unset slots of a palette initializer are black, so every palette has 16 slots |
| Palette.LeadingSpec | config.c:86-89 | the stop count k is at most 16; the first k colours are not black; and when k < 16, colour k is black |
| Palette.LeadingUnique | config.c:86-89 | any count with those properties is the stop count |
| Palette.TableStops | config.c:9-34 | the built-in palettes have 7, 15, 7 and 7 stops |
| Palette.Fold | config.c:83-84 | the folded parameter lies in [0, 1) |
| Palette.FoldIsFraction | config.c:83-84 | folding gives `t - floor(t)` |
| Palette.FoldPeriodic | config.c:83-84 | folding `t + 1` gives the same as folding `t` |
| Palette.FoldFixes | config.c:83-84 | a parameter already in [0, 1) is left alone |
| Palette.ConvexChannel | config.c:107-109 | before the cast, `(1-f)*a + f*b` lies between the smaller and the larger channel |
| Palette.Blend | config.c:107-109 | a blended channel lies between the two channels it blends |
| Palette.BlendZero | config.c:101-109 | with fraction 0 the blend is the first channel exactly |
| Palette.ScaledIndex | config.c:98-99 | for t in [0, 1) and k >= 2, `(int)(t*(k-1))` lies in [0, k-2] |
| Palette.Split | config.c:98-101 | index1 is in [0, k-2], index2 is index1 + 1, and the fraction is in [0, 1) |
| Palette.FewStops | config.c:91-96 | with no stops the colour is black; with one stop it is that stop, for every t |
| Palette.ColorPeriodic | config.c:83-84 | `color(t + 1) == color(t)` |
| Palette.NoWrap | config.c:100 | `(index1 + 1) % k` never wraps |
| Palette.ExactStop | config.c:98-109 | at t = j/(k-1) with j <= k-2 the colour is stop j exactly |
| Palette.OneIsFirstStop | config.c:83-84 | t = 1 gives the first stop, not the last |
| Palette.ColorBetween | config.c:103-109 | each channel of the result lies between the corresponding channels of the two stops it blends |
| Palette.CountStops | config.c:86-89 | the counting loop returns the stop count |
| Palette.PaletteColor | config.c:82-112 | `get_palette_color` returns `ColorAt(colours, t)` |
| Config.Configuration.constructor | main.c:59-60 | the defaults: 20 seconds, 25 frames per second, palette "default" |
| Config.Selection.constructor | config.c:37 | the palette index starts at 0 |
| Config.Selection.Current | config.c:78-80 | `get_current_palette` always returns an entry of the palette table, with all 16 slots |
| Config.FindFrom | config.c:49-54 | returns the first index from `from` whose palette has that name, or none when no later palette does |
| Config.FindPaletteExact | config.c:9-34 | a name is found exactly at a palette of that name, and not found exactly when it is not one of the four built-in names |
| Config.Handler | config.c:39-59 | returns 1 iff the section is `slideshow` and the key is duration, fps or palette; duration and fps store `atoi(value)`; palette selects the first matching palette or keeps the index; nothing else changes, and the index stays valid |
| Terminal.Signed | terminal.c:68 | a byte read into a plain `char` is in [-128, 128) and equal to the byte modulo 256 |
| Terminal.Decode | terminal.c:67-87 | the rest is a suffix of the input; at most 3 bytes are consumed; a byte is consumed iff one is waiting |
| Terminal.DecodeEncode | terminal.c:67-87 | decoding a typed key followed by more bytes gives that key's code and leaves exactly the rest |
| Terminal.DecodeAllEncodeAll | terminal.c:67-87 | decoding a typed key sequence call by call gives back the codes of the keys in order |
| Terminal.NothingWaiting | terminal.c:69-86 | with no byte waiting the result is -1 and nothing is consumed |
| Terminal.TruncatedEscape | terminal.c:72-73 | ESC followed by fewer than two bytes returns ESC (27) |
| Terminal.UnknownEscape | terminal.c:74-82 | ESC followed by any two bytes that are not `[` A-D returns ESC and discards those two bytes |
| Terminal.CodesDistinct | terminal.h:5-8 | the arrow codes (1000 or more) are never the result of a single-byte read |
| Terminal.ByteFFIsNoKey | terminal.c:67-84 | a 0xFF byte is returned as -1, the same code as "no key", and consumes one byte |
| Terminal.Input.constructor | terminal.c:10 | the resize flag starts set |
| Terminal.Input.HandleWinch | terminal.c:12-15 | the signal handler only sets the flag |
| Terminal.Input.HasResized | terminal.c:59-65 | reports the flag and clears it |
| Terminal.Input.GetKey | terminal.c:67-87 | the code and the bytes left are those of `Decode` on the waiting bytes |
| Life.Wrap | art_gameoflife.c:32-33 | `(v + n) % n` for v in [-1, n] is a cell index, with -1 wrapping to n-1 and n to 0 |
| Life.NeighborsExplicit | art_gameoflife.c:28-36 | the neighbour count is the sum of the 8 surrounding cells, each wrapped on the torus |
| Life.NeighborsBound | art_gameoflife.c:28-36 | with 0/1 cells the neighbour count is between 0 and 8 |
| Life.RuleIsB3S23 | art_gameoflife.c:38-44 | a 0/1 cell is alive next iff it has 3 neighbours, or is alive with 2 |
| Life.Step | art_gameoflife.c:26-46 | the next world has the same size as the old one |
| Life.CellOf | art_gameoflife.c:26-27 | every index of the grid is cell (k % w, k / w), and that cell's index is k |
| Life.StepSpec | art_gameoflife.c:26-47 | the step keeps cells in {0,1}; a live cell with fewer than 2 or more than 3 neighbours dies; a dead cell with exactly 3 is born; every other cell keeps its state |
| Life.NoLiveNeighbors | art_gameoflife.c:28-36 | in a world with no live cell, every neighbour count is 0 |
| Life.EmptyStaysEmpty | art_gameoflife.c:26-47 | an empty world stays empty |
| Life.StepAt | art_gameoflife.c:37-44 | cell (x, y) of the step is the rule applied to the old cell and its old neighbour count |
| Life.StepFromCells | art_gameoflife.c:26-46 | a sequence whose every cell is computed from the old world is the step |
| Life.Painted | art_gameoflife.c:50-55 | drawing keeps the screen's size |
| Life.Life.Init | art_gameoflife.c:8-14 | both arrays have w*h cells, and cell i is alive iff the i-th `rand()` is divisible by 4, so every cell is 0 or 1 |
| Life.ContributionAt | art_gameoflife.c:31-34 | every neighbour other than the cell itself is read at `((y+i+h)%h)*w + (x+j+w)%w`, an index inside the world |
| Life.Life.CountRow | art_gameoflife.c:30-35 | the inner offset loop returns that window row's share of the neighbour count |
| Life.Life.CountNeighbors | art_gameoflife.c:28-36 | the two offset loops return the neighbour count |
| Life.Life.Update | art_gameoflife.c:21-48 | `world` becomes `Step` of the old world, and `next_world` equals the new world |
| Life.Life.Draw | art_gameoflife.c:50-56 | each live cell i is stamped `#` at (i % w, i / w) in the palette's first colour on black; dead cells are untouched |
| Registry.Populate | main.c:232-246 | the registry has 9 entries |
| Registry.DispatchSpec | main.c:292-303 | the result is -2 or a valid slide; it is -2 exactly for `q`; `p` and `i` each flip exactly their own flag; the slide changes only for `n`, `b` and the right and left arrows |
| Registry.NextPrevInverse | main.c:296-301 | next and previous stay in [0, 9), undo each other, and wrap: next from 8 is 0, previous from 0 is 8 |
| Registry.NextThenBack | main.c:296-301 | `n` then `b`, or right then left, returns to the same slide with the same flags |
| Registry.Forwarded | main.c:286-291 | every key other than -1 goes to the module's own handler when it has one, hotkeys included |
| Registry.FindFrom | main.c:95-100 | returns the first index from `from` of a module with that name, or none when no later module has it |
| Registry.StartAfterFinds | main.c:94-101 | after the `-s` options the start is a valid index, is the module named by the last option that names one, and moves only to a module some option names |
| Registry.NamesDistinct | main.c:232-246 | the registry's names are distinct, so each name finds its own module |
| Registry.Swap | main.c:268-271 | the swap exchanges positions i and j and leaves every other position alone |
| Registry.Pick | main.c:268 | `rand() % (i + 1)` lies in [0, i] |
| Registry.ShufflePermutes | main.c:266-273 | the remaining iterations of the shuffle permute the registry |
| Registry.ShuffleKeepsAbove | main.c:266-273 | positions above i are final once the loop is at i |
| Registry.ShuffledIsPermutation | main.c:266-273 | `shuffle_modules` produces a permutation of the registry |
| Registry.FirstDrawToLast | main.c:266-273 | when the first draw picks position 0, the head of the registry ends up in the last slot |
| Registry.StartBeforeShuffleMisses | main.c:94-114 | with `-r -s mtg`, "mtg" resolves to slot 8, and any shuffle whose first `rand()` is a multiple of 9 puts Mandelbrot in slot 8 |
| Slideshow.Frame | main.c:142-219 | after any frame the index is a valid slide, and it changes only when the frame ends the slide |
| Slideshow.RenderCalls | main.c:180-196 | rendering calls `draw` iff the module has one, and `update` iff it is not paused and has one |
| Slideshow.ReactCalls | main.c:165-177 | before rendering, a frame only resizes the buffer, re-initialises the module and passes it the key |
| Slideshow.LiveShape | main.c:157-219 | a frame that is not polling is the reaction to the key, then, if the key did not end the frame, rendering and perhaps the pacing wait |
| Slideshow.PausedSkipsUpdate | main.c:180-185 | while paused, no `update` is called |
| Slideshow.RenderedDraws | main.c:180-196 | a frame that renders calls `draw` whenever the module has one, paused or not, and calls `update` exactly when not paused |
| Slideshow.AdvancesAtDuration | main.c:207-211 | outside single mode, a rendered frame ends the slide iff `elapsed >= duration`, and the next slide is `(i+1) % 9` |
| Slideshow.SingleModeStays | main.c:207-211 | in single mode a rendered frame never ends the slide |
| Slideshow.UpdateProgress | main.c:180-185 | a rendered, unpaused frame of a module with `update` passes it the time since the slide started and that time divided by the duration |
| Slideshow.ProgressUnclamped | main.c:180-184 | `progress` is not clamped: a single-mode slide at twice its duration is updated with progress 2, a case of `UpdateProgress` |
| Slideshow.ResizeReinits | main.c:165-170 | a resize first resizes the buffer, then runs `destroy` and `init` on the same module; `drawn` resets; the index changes only if the key asks |
| Slideshow.PollingOnlyReadsInput | main.c:143-155 | a drawn sixel slide only reads input and waits; it never updates, draws, clears, flushes or times out; it stays drawn |
| Slideshow.QuitSkipsDestroy | main.c:143-229 | a frame quits iff the key is `q`, and quitting calls no `destroy` unless a resize in the same frame did |
| Slideshow.Show.constructor | main.c:125-127 | the registry in place, slide 0, not paused, no HUD |
| Slideshow.Show.StartWith | main.c:94-101 | the first module of that name becomes the start; the start is kept if no module has that name |
| Slideshow.Show.Shuffle | main.c:266-273 | the registry becomes `Shuffled` of the old one and is a permutation of it |
| Slideshow.Show.StartupAsWritten | main.c:94-114 | the start is looked up in the registry before the shuffle; the registry is shuffled when `-r` is given |
| Slideshow.Show.Startup | main.c:94-114 | with the shuffle first, the start is the module named by the last `-s` option that names one |
| Slideshow.Show.HandleInput | main.c:285-304 | reads one key; passes it to the module's own handler as `InputEffects` says; the result and both flags follow `Dispatch` |
| Slideshow.Show.Enter | main.c:130-140 | `init` is called when the module has one; `drawn` is cleared; the slide's start time is taken |
| Slideshow.Show.Reinit | main.c:165-170 | resizes the buffer, then calls `destroy` and `init` as the module has them, and clears `drawn` |
| Slideshow.Show.Render | main.c:179-200 | update unless paused, clear (not for sixel), draw, HUD when shown, flush (not for sixel); a sixel module that draws is marked drawn |
| Slideshow.Show.Finish | main.c:179-218 | rendering, then either advancing to the next slide or the pacing wait, as `RenderFrame` says |
| Slideshow.Show.Respond | main.c:172-177 | `handle_input`, then quit, switch to the slide it names, or carry on, as `RespondFrame` says |
| Slideshow.Show.React | main.c:165-177 | the resize check, then `Respond` |
| Slideshow.Show.Poll | main.c:143-155 | a drawn sixel slide's frame, as `PollFrame` says |
| Slideshow.Show.Live | main.c:157-218 | any other frame, as `LiveFrame` says |
| Slideshow.Show.Step | main.c:142-219 | one pass of the inner loop does exactly what `Frame` says |
| Slideshow.Show.Leave | main.c:221-223 | the slide's module is destroyed when it has a `destroy` |
| Slideshow.SlideFrames | main.c:142-219 | the frames of one slide stop at the first frame that ends it: within the budget, and if none does, all of the budget is used and the slide is unchanged |
| Slideshow.SlideFrame | main.c:142-219 | a slide's first frame uses one of the budget, and a slide that goes on keeps its index |
| Slideshow.Show.Slide | main.c:142-219 | one slide's inner frame loop leaves exactly the state, calls, outcome, frame count and unread input that `SlideFrames` gives, and keeps the active module |
| Slideshow.Show.Run | main.c:125-224 | the loop keeps the state valid and only appends to the call log |

## Left out

- Terminal I/O: termios raw mode, `ioctl(TIOCGWINSZ)`, the `SIGWINCH` installation and `printf`/`fflush` output are not modelled. Output is the `Token` list; input is a byte sequence; the terminal size is a parameter.
- Time: `clock_gettime` readings are parameters. `nanosleep` is the `PollSleep`/`FrameSleep` effect. The pacing sleep is a fixed `1e9 / target_fps` ns and is not shortened by the frame's own time. A zero `target_fps` (a division by zero in the source) is not modelled.
- Floating point: palette blending, `progress` and elapsed times are exact reals. `float`/`double` rounding, infinities and NaN are not modelled, except that a zero duration gives `Progress.NotFinite`.
- Integer widths: sizes and indices are unbounded integers, so an overflow of `width * height` or of the `int` fields is not modelled.
- `atoi`, `getopt_long`, `ini_parse`, `load_config` (with `getenv("HOME")`), `print_usage` and `list_modules` are not modelled. `atoi` is a function parameter of `Config.Handler`. The `-s` and `-r` options reach the model as a list of names and a flag.
- `--palette` is copied into `config.palette` and never used to select a palette; the model keeps the field and never reads it.
- HUD text: `draw_hud`'s `snprintf` formatting (and its clamp of negative time to 0) is not modelled. The HUD is the `Hud(timeLeft)` effect with the unclamped time left.
- `get_buffer`, `get_width`, `get_height` and `term_get_width`/`term_get_height` are plain field reads and have no members.
- The art modules other than Game of Life are not modelled: art_mandelbrot.c, art_plasma.c, art_starfield.c, art_cube.c, art_clock.c, art_matrix.c, art_image.c, art_mtg.c and art_mtg_sixel.c. They are floating-point, image decoding, network and process code. Each appears only as its registry entry (which callbacks it has) and as effects in the main loop's log. sixel_test.c and `is_sixel_supported` are not part of this model; the sixel choice is a parameter of `Registry.Populate`.
- The palette pointer passed to `init` and `draw` is not recorded in the `Init`/`Draw` effects. `Life.Life.Draw` takes the palette as a parameter.
- `Life.Life.Init`: a failed `malloc` in `gol_init` is not modelled; both arrays are always allocated. `gol_destroy` (art_gameoflife.c:16-19) frees them; the model has no member for it, since arrays are garbage-collected.
- `Life.Life.Update`: the contents `next_world` holds before the first update (uninitialised memory) do not matter, because every cell is written before the copy.
- `Buffer.Screen.Destroy`: `free` is modelled as marking the grids not live.
- `Buffer.Screen.Resize`: the failure of `init_buffer` inside `resize_buffer` is dropped, as in the source. A later draw on a grid that is not live is excluded by the `Ready()` precondition rather than modelled as a crash.
- `Registry.Shuffled`: `rand()` is an oracle. Neither the uniformity of the shuffle nor the modulo bias of `rand() % (i + 1)` is modelled.
- `Slideshow.Show.Run`: its contract only says that the state stays valid and that the call log only grows. What each slide does is stated by `Slideshow.Show.Slide` (through `SlideFrames`), `Enter` and `Leave`. The number of frames is bounded by a budget, while the source loops until `q`.
- `Terminal.Signed`, `Terminal.ByteFFIsNoKey`: plain `char` is taken to be signed, as on x86-64. Where it is unsigned (AArch64 Linux, for one), `term_get_key` returns 128-255 for the high bytes and 255 for 0xFF, which the model does not cover.
- `Buffer.PlotText`, `Buffer.CString`, `Buffer.Screen.DrawText`: text is a sequence of Dafny `char`s, one cell per character. In the source a string is bytes, so a multi-byte UTF-8 character fills one cell per byte; the model does not capture that.
- `Slideshow.Frame`: the terminal size is whatever the caller passes to each frame; the model does not tie it to earlier frames.

## Findings

| source | as written | input that shows it | evidently intended | confidence | as-written member | corrected member |
|---|---|---|---|---|---|---|
| main.c:94-114 | `-s NAME` is looked up while options are parsed, before `-r` shuffles the registry, and the loop then starts at that stale index | `-r -s mtg` without sixel support: "mtg" is slot 8; a shuffle whose first `rand()` is a multiple of 9 swaps Mandelbrot into slot 8, and the later iterations never touch slot 8 again, so the show starts on Mandelbrot | with `-r`, start on the module named by `-s` and show the rest in random order | medium, not executed | Slideshow.Show.StartupAsWritten, Registry.StartBeforeShuffleMisses | Slideshow.Show.Startup |
| buffer.c:23-27 | `init_buffer` marks every shadow cell dirty, with the comment "Force full redraw on first flush", but `buffer_flush` never reads `dirty`; the shadow's colours are whatever `malloc` returned | a current cell that is a space whose colours equal the allocator's bytes for the shadow cell: the first flush skips it, so whatever the terminal showed there before the show started stays (setting up the terminal does not clear the screen) | the first flush after `init_buffer` or `resize_buffer` redraws every cell | medium, not executed | Buffer.FirstFlushMaySkipCell | Buffer.FixedFirstFlushRedrawsAll, Buffer.Screen.FixedFlush |
| buffer.c:52-53 | `last_fg`/`last_bg` start at `{-1, -1, -1}`, which is 255,255,255 in `unsigned char`, so white counts as already emitted; but every flush starts on a terminal at its default colours (setting up the terminal writes no colour, and each flush ends with `\x1b[0m` at buffer.c:83) | a second flush, of a 1-by-2 grid of `'*'` white on black over a previous frame of blank cells white on black: only a background escape is written, and both cells show `'*'` in the terminal's default foreground on black, not white | every changed cell is shown in its own colours | medium, not executed | Diff.WhiteShownAsDefault, Diff.FlushShows | Diff.FixedFlushPaints, Buffer.Screen.FixedFlush |
