# Coloured Game of Life (golcol) in Dafny

This project models the simulation core of `golcol.cpp`. That program runs a
coloured variant of Conway's Game of Life on a fixed grid of cells shown on a
Pico display. Each cell has a colour (`r`, `g`, `b` bytes), a current state
`c_alive` and a pending next state `n_alive`. The model covers four parts:

- `ROrand(N)`. It assembles N bits, read from the ring oscillator's random-bit
  register, into a 32-bit unsigned integer.
- `setupCells`. It reseeds every cell from two 32-bit draws: one picks the
  colour, the other the liveness.
- `updateCells` / `updateCell`. This is one generation. An in-place compute
  pass marks each cell's `n_alive` and colours newborn cells with the mean
  colour of their three parents. A commit pass then copies `n_alive` into
  `c_alive` and clears it.
- The call to `updateCells` at the end of `refreshDisplay`.

The model has three modules:

- `Entropy`:
  - The register is an abstract sequence of sampled bits.
  - `ROrand` is a loop over a 32-bit accumulator, with the wrap-around written out.
  - Lemmas relate the bit string to its value, most significant bit first.
- `Life`:
  - The value-level reference: cells, the Moore-neighbourhood tally, and
    Conway's rule.
  - `Computed`, what updateCell makes of one cell, and `Step`, the
    simultaneous step of the whole board.
  - The lemmas explaining why computing the cells in place, one after
    another, gives the simultaneous step. A cell's tally reads only the live
    cells and their colours. The compute pass never changes liveness and
    only recolours dead cells.
- `Engine`:
  - Class `Game`, whose `cells` field is an `array2<Cell>` of generic
    positive size `W` by `H`. In the source the size is the display size
    divided by the cell size.
  - Methods for setupCells, updateCell and updateCells, each with its loops
    and invariants. Each is proved against the `Life` functions.

The main result is `Engine.Game.UpdateCells`. It starts from a grid with no
pending marks, runs the in-place nested loops, and leaves the grid equal to
`Life.Step` of the old grid. Every cell is computed against the same prior
generation, whatever order the compute pass takes.

## Model

| member | source | states |
|---|---|---|
| Entropy.ROrand | golcol.cpp:46-56 | Reads `n` bits, first bit most significant, into a 32-bit accumulator. The result is below 2^32. A count of zero or less gives 0. Otherwise the result is the bits' value modulo 2^32. For 0 <= n <= 32 it is exactly the value of the n bits, and below 2^n (for n = 32 that is the first bound). |
| Entropy.BitsValue | golcol.cpp:50-54 | The value ROrand accumulates from a bit string read first-bit-most-significant: each new bit is shifted in at the low end. Its parity is the last bit read. |
| Entropy.ShiftIn | golcol.cpp:53 | `random << 1 \| random_bit` on a 32-bit `unsigned int`: the result stays below 2^32, and its low bit is the bit shifted in. |
| Entropy.BitsValueBound | golcol.cpp:44-45 | n bits read as a number are below 2^n, the "between 0-2^N" the source's comment promises. |
| Entropy.FirstBitMostSignificant | golcol.cpp:50-54 | The first bit read is worth 2^(n-1). The rest of the bits form the value below it. |
| Entropy.ToBitsRoundTrip | golcol.cpp:50-54 | Expanding a value below 2^n into n bits and reading them back gives the value. |
| Entropy.BitsValueRoundTrip | golcol.cpp:50-54 | The value of n bits determines every bit read: expanding it gives the bits back. |
| Entropy.ShiftInMod | golcol.cpp:53 | `random << 1 \| bit` on the 32-bit accumulator equals twice the value plus the bit, modulo 2^32. |
| Entropy.Draw | golcol.cpp:109 | A 32-bit draw taken from the bit stream is below 2^32. |
| Entropy.DrawBits | golcol.cpp:109 | Each draw reads exactly 32 bits of the stream. |
| Life.SwitchColour | golcol.cpp:111-131 | The `switch (val % 3)` with its white default. Cases 0, 1 and 2 give red, green and blue, and only those cases do. A value below 3 never reaches white. |
| Life.Reseeded | golcol.cpp:109-135 | A reseeded cell is red, green or blue, never the white default. It is red, green or blue exactly when the first draw mod 3 is 0, 1 or 2. It is alive exactly when the second draw is odd. Its `n_alive` is untouched. |
| Engine.Game.ReseedCell | golcol.cpp:109-135 | The loop body for one cell makes that cell `Reseeded` from draws 2k and 2k+1, where k is the cell's row-major index. No other cell changes. |
| Engine.Game.PaintCell | golcol.cpp:111-131 | The `switch (val % 3)` sets exactly the colour `SwitchColour(val % 3)`. It is never white: the default branch is proved unreachable. No other cell or field changes. |
| Engine.Game.SetupCells | golcol.cpp:105-138 | Every cell becomes `Reseeded` from its own two draws, in x-outer, y-inner order. Every colour is primary. Liveness equals the parity of the second draw. No `n_alive` is set, so the engine invariant is kept. |
| Engine.Game.SeededCell | golcol.cpp:109-135 | Reseeding keeps a cell's `n_alive`. |
| Engine.Game.CellIndex | golcol.cpp:106-107 | The visit number of cell (x, y) is below the number of cells. |
| Life.Contribution | golcol.cpp:164-172 | What one position adds after the `continue` chain: nothing if it is off the board or dead, otherwise one cell and its colour. At most one cell, with each channel at most 255. |
| Engine.DrawsFit | golcol.cpp:109-133 | Proof helper (arithmetic): the two draws of every cell lie within the bits supplied for the whole grid. |
| Life.Term | golcol.cpp:163-173 | One offset step adds at most one live cell, with channels at most 255. The cell itself and positions off the board add nothing. |
| Engine.Game.NeighbourTerm | golcol.cpp:163-173 | The body of the offset loops, with its three `continue`s, yields the `Term` of that offset on the current grid. |
| Life.ScanPrefix | golcol.cpp:161-175 | After k offset steps the counter is at most k, or k-1 once the centre is passed. Each channel is at most 255 per counted cell. |
| Life.Neighbourhood | golcol.cpp:161-175 | The neighbour tally counts at most 8 cells. Each channel sum is at most 255 per counted cell. |
| Engine.Game.ScanNeighbours | golcol.cpp:158-175 | The nested offset loops, with the accumulators zeroed, end with the counters equal to the neighbourhood tally of the grid. |
| Life.LiveNeighboursCountsSet | golcol.cpp:161-175 | The live-neighbour count is the number of live, in-bounds cells among the eight positions around (x, y). The cell itself is not counted and there is no wraparound. The count does not depend on the scan order. |
| Life.ScanPrefixCountsSet | golcol.cpp:161-175 | Each step of the scan counts a position not counted before, so the counter equals the size of the set of counted positions. |
| Life.CountedUpToSteps | golcol.cpp:161-164 | Every counted position was counted at the one step that visits it. |
| Life.CountedAtStep | golcol.cpp:161-173 | A live, in-bounds, non-centre position is counted once the step visiting it is done. |
| Life.LiveNeighboursAreCounted | golcol.cpp:161-173 | Every live neighbour is counted by the scan. |
| Life.CountedAreLiveNeighbours | golcol.cpp:161-173 | The scan counts only live neighbours. |
| Life.ScanPrefixWithinSlots | golcol.cpp:163-164 | The counter never exceeds the number of on-board, non-centre positions visited so far. |
| Life.NeighbourBounds | golcol.cpp:161-175 | A cell has at most 8 live neighbours. On an edge it has at most 5, in a corner at most 3. |
| Life.NeighbourhoodFitsUint16 | golcol.cpp:158-159 | The count and the three channel sums stay below 2^16, so the `uint16_t` counters never wrap. |
| Life.PlusBounded | golcol.cpp:170-173 | Proof helper: adding two tallies keeps every channel sum within 255 per counted cell. |
| Life.BirthColour | golcol.cpp:182-184 | `(avg / 3) % 256` per channel. With three counted cells whose channels are bytes, it is the floor mean, so the `% 256` has no effect. |
| Life.Computed | golcol.cpp:157-192 | updateCell as a value, with zeroed accumulators. A dead cell with 3 neighbours gets the mark and the birth colour. A live cell with 2 or 3 neighbours gets the mark. `c_alive` is never changed, a live cell's colour is never changed, and a pending mark is never cleared. |
| Life.Commit | golcol.cpp:151-152 | The commit of one cell: `c_alive` takes `n_alive`, `n_alive` is cleared, and the colour is kept. |
| Life.Step | golcol.cpp:140-155 | The simultaneous generation. Every cell is computed against the same prior grid, then committed. It keeps the grid's dimensions and leaves no pending mark. |
| Life.ComputedFollowsRule | golcol.cpp:177-191 | updateCell keeps `c_alive`. It sets `n_alive` exactly when the mark was pending or Conway's rule holds (2 or 3 neighbours when alive, exactly 3 when dead). It recolours only a dead cell with 3 neighbours, to the birth colour. |
| Life.BirthColourIsMean | golcol.cpp:180-184 | A birth colour is the floor mean of the three parents' channels. The `% 256` never changes it. |
| Life.BirthChannelFrom | golcol.cpp:159-184 | A birth channel computed from an accumulator starting at `start` equals the floor mean when the start is zero. |
| Life.StaleAccumulatorSkewsBirth | golcol.cpp:159 | Three red parents give red 255 from a zeroed accumulator but 0 from one that starts at 3. |
| Life.BirthColourStartsFromZero | golcol.cpp:180-184 | The model's birth colour is the accumulator-from-zero value on every channel. |
| Engine.Game.UpdateCell | golcol.cpp:157-192 | Cell (x, y) becomes `Computed` against the grid as it was on entry. No other cell changes. |
| Engine.Game.ComputePass | golcol.cpp:142-146 | After updateCell runs on every cell in place, each cell equals `Computed` against the grid as it was before the pass, even though later cells read a grid that earlier cells changed. |
| Engine.Game.CommitPass | golcol.cpp:149-154 | Every cell becomes `Commit` of its old value: `c_alive` takes `n_alive` and `n_alive` is cleared. This establishes the engine invariant. |
| Life.StepFollowsRule | golcol.cpp:140-192 | On a grid with no pending marks, after one step a cell is alive exactly when Conway's rule holds. Its `n_alive` is cleared. A newborn has the mean colour of its three live neighbours. Every other cell keeps its colour. |
| Life.MonochromeBirth | golcol.cpp:170-184 | A dead cell with three live neighbours on a board whose live cells all share colour c is born with colour c: averaging three equal channels gives the channel back. |
| Life.MonochromeStep | golcol.cpp:140-192 | A step keeps a board monochrome. Every live cell after the step has the colour c that every live cell had before, so a one-colour pattern such as a blinker keeps its colour as it evolves. |
| Life.ScanMono | golcol.cpp:161-175 | On a monochrome board each channel sum of the scan is the neighbour count times that colour's channel. |
| Life.TermMono | golcol.cpp:163-173 | On a monochrome board an offset step adds nothing, or one cell of that colour. |
| Life.PlusUniform | golcol.cpp:170-173 | Proof helper: adding nothing, or one cell of colour c, keeps every channel sum equal to the count times c's channel. |
| Life.StepShape | golcol.cpp:140-155 | A step keeps the grid's dimensions and leaves no pending mark. |
| Life.ContributionOfLiveView | golcol.cpp:166-172 | A position's contribution depends only on whether it is alive and on its colour when alive. |
| Life.ScanPrefixOfLiveView | golcol.cpp:161-175 | The offset scan reads only the live view of the grid. |
| Life.NeighbourhoodOfLiveView | golcol.cpp:161-175 | Two grids with the same live cells, coloured the same, give every cell the same neighbourhood. |
| Life.UpdateAtKeepsLiveView | golcol.cpp:180-191 | Computing one cell in place leaves the live view unchanged. |
| Life.ComputedOfLiveView | golcol.cpp:157-192 | A cell computed against a grid with the same live view, and the same cell, gets the same result. |
| Life.UpdatesCommute | golcol.cpp:142-146 | Computing two different cells in place gives the same grid in either order. |
| Life.UpdateAt | golcol.cpp:177-191 | updateCell's in-place write as a value: cell (x, y) becomes `Computed`, and every other cell and the grid's shape are unchanged. |
| Engine.Game.UpdateCells | golcol.cpp:140-155 | Starting with no pending marks, the in-place compute pass and the commit pass leave the grid equal to the simultaneous `Step` of the old grid, with no pending marks. |
| Engine.Game.RefreshDisplay | golcol.cpp:102 | The frame's trailing step advances the grid by exactly one simultaneous `Step`. |
| Life.NoNeighboursWhenAllDead | golcol.cpp:168 | On an all-dead grid every partial scan is empty. |
| Life.EmptyStaysEmpty | golcol.cpp:149-154 | An all-dead grid with no pending marks stays all-dead and unmarked for any number of steps. |
| Engine.Game.constructor | golcol.cpp:42 | The static grid starts with every cell zeroed, so it is all dead with no pending marks. |
| Engine.Game.ValidIsQuiet | golcol.cpp:149-153 | The engine invariant is exactly "no cell has a pending `n_alive`". |
| Engine.Game.Valid | golcol.cpp:149-154 | The engine invariant between operations. The grid has size W by H and no cell has a pending `n_alive`: the state the commit pass leaves behind. |
| Engine.CellIndexBound | golcol.cpp:106-107 | Proof helper (arithmetic): a row-major index x*H + y lies below W*H. |

## Left out

- The pixel drawing in `refreshDisplay` (golcol.cpp:85-100) is left out. It
  is a thin wrapper over the display driver, which is not part of this
  model. Only the trailing `updateCells` call is modelled.
- `main`, the repeating timer callback, `sleep_ms` and the reset button
  (golcol.cpp:18-22, 60-83) are left out. They are hardware timing and
  polling around the core.
- The interleaving of a reseed from the main loop with a step from the timer
  interrupt is left out. It is a race between contexts, not sequential logic.
  The model runs each operation to completion on its own.
- The volatile read of the ring-oscillator register (golcol.cpp:48, 52) is
  replaced by the sequence `samples` of bits it yields. The `0x1 &` mask is
  folded in, so each sample is one bit. Entropy quality and bias are not
  modelled. `setupCells` is given the whole stream, and cell k takes draws
  2k and 2k+1.
- golcol-stub.cpp is not part of this model. Its `ROrand` is the same code,
  and its other functions are empty placeholders.
- Engine.Game.ScanNeighbours, Engine.Game.UpdateCell: the accumulators
  `avg_r`, `avg_g`, `avg_b` are uninitialised in the source (golcol.cpp:159).
  Their starting value is undefined behaviour. The model starts them at zero
  (see Findings). `Life.BirthChannelFrom` models one channel for an
  arbitrary start value.
- The `uint16_t` counters and loop variables are unbounded naturals in the
  model. `Life.NeighbourhoodFitsUint16` shows that the counters never reach
  2^16. The loop indices range over the grid, which the display size keeps
  small; that size is not modelled.
- The `uint32_t`/`unsigned int` wrap is written out only in `ROrand`. Every
  other value that passes through it, a draw below 2^32, is unchanged by it.

## Findings

| source | as written | input that shows it | evidently intended | confidence | as-written member | corrected member |
|---|---|---|---|---|---|---|
| golcol.cpp:159 | `avg_r`, `avg_g`, `avg_b` are declared without an initial value and then accumulated into, so a newborn's colour depends on whatever the stack held | three pure red parents (red sum 765) with `avg_r` starting at 3: (768 / 3) % 256 = 0, so the newborn gets red 0 instead of 255 | accumulators start at zero, so a newborn's channel is the floor mean of its three parents' channels | high (not executed; undefined behaviour in C) | Life.StaleAccumulatorSkewsBirth | Life.BirthColourIsMean |
