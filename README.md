# Critters: a reversible Margolus block automaton

This project models the engine of the Critters block cellular automaton. The
engine also supports a three-state variant.

- **World.** The world is a torus of `width` by `height` cells. Both
  dimensions are even. The cells are stored row by row in one flat vector.
- **Phases.** A step cuts the torus into 2x2 blocks, with the top-left corners
  at `(2i + o, 2j + o)`; the origin `o` alternates between 0 and 1 from phase
  to phase. Each block is read as one mixed-radix code. The code is looked up
  in a permutation table, and the entry is written back as the block's four
  cells.
- **Stepping back.** In `src/world.rs` a back-step applies the inverse table
  to the partition the last step used, so every step can be undone. The
  back-step of `src/new_world.rs` uses the other partition and does not undo
  the step; the intended back-step, which does, is modelled beside it.

There are two engines:

- `src/world.rs` is the concrete engine, with Boolean cells and the fixed
  Critters table.
- `src/new_world.rs` and `src/rules.rs` are the generalised revision, with
  two- or three-state rule sets. A rule set holds the tables of the two phases
  together with their inverses.

The model is split into six modules:

- `Arith` (arith.dfy): division facts used by the flat row-major index
  `x + y * width`.
- `Rules` (rules.dfy): the block codec for two and three states, and the
  permutation inverter behind the `invert!` macro. Also the `from_one_step` and
  `from_two_steps` constructors, `normalize_state`, and the special states
  (`default_state`, `mouse_1` to `mouse_3`).
- `Torus` (torus.dfy): `normalize`, and `get`/`set` as functions on a grid of
  rows `g[y][x]`. Also block reads and writes, and the link between the grid
  and the flat vector.
- `Margolus` (margolus.dfy):
  - the geometry of the two partitions;
  - what one phase does to every cell (`ApplyPhase`);
  - the block-by-block sweep the engines perform, as loop-invariant lemmas;
  - the fact that a phase followed by its inverse table on the same partition
    is the identity.
- `CrittersWorld` (world.dfy): `src/world.rs`.
  - A `World` class over an `array<bool>`. Its methods are proved against the
    pure state machine `StepSpec`/`StepBackSpec`.
  - The Critters table and its inverse.
  - The round trip `step`/`step_back`, for one step and for `k` steps.
- `NewWorld` (new_world.dfy): `src/new_world.rs`.
  - A `World` class over an `array<nat>` with a `RuleSet`.
  - `set_new_size`, `set_rect`, and `step`/`step_back` as written, with a
    counterexample showing that this `step_back` does not undo `step`. The
    intended back-step is proved to undo it.

### Decisions

- **Cells as state numbers.** The classes keep the source's own storage, a
  flat vector indexed by `x + y * width`. Their contracts read it as a grid of
  rows, so that the block geometry stays linear. `CrittersWorld` reads each
  Boolean cell as the state number `b as u8`.
- **One rule-set type.** The two concrete rule objects differ only in their
  alphabet size, so one `RuleSet` datatype carries that size `n` (2 or 3).
  The source's `Box<dyn Rules>` is replaced by this value.
- **Loop bodies as methods.** The loops of `step`/`step_back` (the
  `for_each_block!` macro in `src/new_world.rs`) appear once, as
  `World.Sweep`. Their body, read a block and write the table entry, is
  `World.SweepStep`.
- **Copy loops as a method.** The copy loops of `set_new_size` are
  `World.CopyOverlap`, and their body is `World.CopyCell`.

### Construction and non-compiling code

- **Construction failures.** The constructors take one or two fixed-size
  tables, so neither a wrong number of tables nor a wrong length can be
  passed. Their only failure is `None` when a table does not invert
  (`Rules.FromOneStep`, `Rules.FromTwoSteps`).
- **Non-compiling code.** `src/new_world.rs` does not compile in several
  places. Each is modelled by its evident intent. Among them:
  - `RulesSingleState` at :47;
  - `invert!` comparing a `BlockInt` with an integer and building `[u8; N]`
    where `[BlockInt; N]` fields are expected, at :39-43;
  - the two-state `from_block_int` returning `bool`s at :86-93, read as
    states 0 and 1;
  - the table accessors returning arrays where `&[BlockInt]` is declared, at
    :95-106;
  - the missing `Some` at :150-155;
  - `to_block_int`/`from_block_int` declared without a `self` receiver (:8-9)
    but called through `self.rules` (:291, :301);
  - `rules` used after it was moved, at :233;
  - `self.world.arr` at :240-246;
  - `normalize` used at :265 and :272 but neither defined nor imported in
    the file; it is modelled as the private one of `src/world.rs:9-11`;
  - `current.into()` used as a table index, at :311.

## Model

| member | source | states |
|---|---|---|
| Rules.EncodeRoundTrip | src/rules.rs:85-197 | A block of in-alphabet cells (two states: `to_block_int` at :85-92; three states: :182-189) has a code below `n^4`, and decoding that code gives back the block. The same codec is that of the rule objects in src/new_world.rs:78-93 and :160-175. |
| Rules.DecodeRoundTrip | src/rules.rs:93-197 | Every code below `n^4` decodes (`from_block_int`, :93-100 and :190-197) to four in-alphabet cells that encode back to the same code. |
| Rules.ToBlockInt | src/rules.rs:85-189 | `to_block_int` of a block of in-alphabet cells is below `n^4` (16 or 81), so it indexes the table. `Rules.EncodeRoundTrip` proves that `from_block_int` inverts it. |
| Rules.FromBlockInt | src/rules.rs:93-197 | `from_block_int` of a code below `n^4` gives four in-alphabet cells. `Rules.DecodeRoundTrip` proves that `to_block_int` inverts it. |
| Rules.Position | src/rules.rs:43-46 | `position` finds `x` exactly when `x` occurs in the table. The index it returns holds `x`, and no earlier index does. |
| Rules.Positions | src/rules.rs:42-49 | Collecting the positions of `0 .. m-1` succeeds exactly when every one of them occurs. On success each entry is the first index of its value. |
| Rules.Invert | src/rules.rs:39-52 | On success the table has one entry per index, and entry `j` is a position holding `j`. `Rules.InvertSucceedsIffPermutation` and `Rules.InvertIsInverse` prove when it succeeds and that it is a two-sided inverse. |
| Rules.InvertSucceedsIffPermutation | src/rules.rs:39-52 | `invert!` returns a table exactly when its input is a permutation of `[0, len)`. Checking that every value occurs also rules out repeats and out-of-range entries. |
| Rules.InvertIsInverse | src/rules.rs:39-52 | On success, `inv[p[i]] == i` and `p[inv[j]] == j` for every index in range. |
| Rules.FromOneStep | src/rules.rs:55-65 | `None` exactly when the table is not a permutation. Otherwise the table is stored for both phases, with one inverse shared by both phases, and the rule set is valid. |
| Rules.FromTwoSteps | src/rules.rs:67-81 | `None` exactly when either table is not a permutation. Otherwise each table is stored with its own inverse. |
| Rules.NormalizeState | src/rules.rs:130-233 | The result is in the alphabet, an in-alphabet state maps to itself, and a larger state becomes 1 (two states at :130-136, three states at :227-233). |
| Rules.NormalizeStateIdempotent | src/rules.rs:130-136 | Normalising twice equals normalising once. |
| Rules.DefaultState | src/rules.rs:126-225 | The default state is in the alphabet and `normalize_state` leaves it unchanged. |
| Rules.Mouse1 | src/rules.rs:116-215 | `mouse_1` is a non-empty state of the alphabet. |
| Rules.Mouse2 | src/rules.rs:119-218 | `mouse_2` is in the alphabet. It is state 2 exactly for the three-state rules, and 0 for the two-state rules. |
| Rules.Mouse3 | src/rules.rs:122-221 | `mouse_3` is the default state, inside the alphabet. |
| Torus.Normalize | src/world.rs:9-11 | `normalize(v, size)` is `v % size`, and is below `size`. |
| Torus.At | src/world.rs:34-39 | `get(x, y)` reads the cell at `(x mod width, y mod height)`. `Torus.AtPeriodic` proves the torus periodicity. |
| Torus.Update | src/world.rs:41-46 | `set` keeps the grid's dimensions. `Torus.UpdateAt` proves that `get` then reads `v` at every coordinate congruent to `(x, y)`, and `Torus.UpdateOthers` proves that no other cell changes. |
| Torus.ReadBlock | src/world.rs:48-53 | `get_block` reads the four cells `(x, y)`, `(x+1, y)`, `(x, y+1)` and `(x+1, y+1)`, each wrapped modulo the dimensions, in that order. |
| Torus.WriteBlock | src/world.rs:55-60 | The last of the four writes, the bottom-right cell, always holds its value. `Torus.LocalWriteAt` and `Torus.ReadWriteBlock` prove where the other three land and that the block reads back. |
| Torus.AtPeriodic | src/world.rs:34-39 | `get(x + width, y)` and `get(x, y + height)` both equal `get(x, y)`. |
| Torus.UpdateAt | src/world.rs:41-46 | After `set(x, y, v)`, `get` at any coordinates congruent to `(x, y)` returns `v`. Every other coordinate reads what it read before. |
| Torus.UpdateOthers | src/world.rs:41-46 | `set` changes only the one normalised cell it addresses. |
| Torus.FlatWrite | src/world.rs:45 | Writing flat position `x + y * width` changes exactly cell `(x, y)` of the grid. |
| Torus.ReadWriteBlock | src/world.rs:48-60 | On a torus at least 2 by 2, reading a block back after `set_block`'s four writes gives the block written. |
| Torus.SetThenGetBlock | src/world.rs:48-60 | `set_block(x, y, v)` followed by `get_block(x, y)` returns `v` for every code of the alphabet. |
| Torus.LocalWriteAt | src/world.rs:55-60 | After a block write, each of the four block cells holds its corner of the block. Every other cell is unchanged. |
| Margolus.CoordinateInBlock | src/world.rs:65-66 | Every coordinate lies in the block with index `BlockIndex < size/2`, at offset 0 or 1 from that block's start, so the blocks cover the grid. |
| Margolus.BlockCoordinate | src/world.rs:65-66 | The two cells of block `i` along an axis belong to block `i` and to no other block, so the blocks are disjoint. |
| Margolus.ApplyPhase | src/world.rs:65-71 | One phase keeps the grid's dimensions. `Margolus.ApplyPhaseBlock`, `Margolus.ApplyPhaseInAlphabet` and `Margolus.PhaseRoundTrip` prove what it writes into each block. |
| Margolus.ApplyPhaseBlock | src/world.rs:65-71 | After a phase, every block of the partition holds the table entry at its old code. |
| Margolus.ApplyPhaseInAlphabet | src/world.rs:67-69 | A phase with a table of in-range codes keeps every cell in the alphabet. |
| Margolus.PhaseRoundTrip | src/world.rs:62-88 | A phase with table `t`, followed by the phase on the same partition with a table that undoes `t`, gives back the grid. |
| Margolus.SweepBlock | src/world.rs:67-69 | Visiting one block reads cells that no earlier visit changed. It extends the swept region by exactly that block, so the visiting order does not matter. |
| CrittersWorld.CrittersTables | src/world.rs:13-22 | `CRITTERS_ARRAY` is a permutation of the 16 codes, so the `unwrap` in computing its inverse cannot fail. That inverse is `CRITTERS_ARRAY_INVERT`, and both tables hold codes below 16. |
| CrittersWorld.InverseUnique | src/world.rs:20-22 | A permutation has one inverse, so the position table computed on first use is the constant. |
| CrittersWorld.Bit | src/world.rs:49-52 | `b as u8` is 1 exactly for `true`, and is below 2. |
| CrittersWorld.LowBitsDecode | src/world.rs:55-60 | The four bit tests of `set_block` give two-state cells, and for a code below 16 they decode it. |
| CrittersWorld.StepThenBack | src/world.rs:62-88 | `step` then `step_back` restores the cells and the offset. |
| CrittersWorld.BackThenStep | src/world.rs:62-88 | `step_back` then `step` restores the cells and the offset. |
| CrittersWorld.BackStepsUndoSteps | src/world.rs:62-88 | `k` steps undone by `k` back-steps give the original world. |
| CrittersWorld.World.constructor | src/world.rs:25-32 | The dimensions are twice the half-dimensions, every cell is dead, and the offset is the one given. |
| CrittersWorld.World.Get | src/world.rs:34-39 | Returns the cell at the normalised coordinates. |
| CrittersWorld.World.Set | src/world.rs:41-46 | The new grid is the old one with only the normalised cell replaced. |
| CrittersWorld.World.GetBlock | src/world.rs:48-53 | The code is below 16 and is the two-state code of the block at `(x, y)`. |
| CrittersWorld.World.SetBlock | src/world.rs:55-60 | The new grid is the old one after the four wrapped writes of bits 3, 2, 1 and 0 of `v`. |
| CrittersWorld.World.SweepStep | src/world.rs:67-69 | One block visit extends the loop invariant by one block. |
| CrittersWorld.World.Sweep | src/world.rs:65-71 | The nested block loops leave the grid after one phase with the given table and origin. |
| CrittersWorld.World.Step | src/world.rs:62-74 | The new world is `StepSpec` of the old one: the phase at the current offset with `CRITTERS_ARRAY`, then the offset flips. |
| CrittersWorld.World.StepBack | src/world.rs:76-88 | The new world is `StepBackSpec` of the old one: the phase at the negated offset with the inverse table, then the offset flips. |
| NewWorld.World.constructor | src/new_world.rs:228-238 | The dimensions are twice the half-dimensions, every cell holds `default_state`, and the flag is clear. |
| NewWorld.World.SetNewSize | src/new_world.rs:248-262 | The new dimensions are twice the half-dimensions. Cells in the overlap keep their values, every other cell is `default_state`, and the flag is unchanged. |
| NewWorld.World.CopyOverlap | src/new_world.rs:253-257 | The copy loops turn a grid filled with the default into the resized grid. |
| NewWorld.Resized | src/new_world.rs:248-262 | The resized grid has the new dimensions. `NewWorld.ResizeShrinkBack`, `NewWorld.ResizedInAlphabet` and `NewWorld.World.CopyOverlap` prove what it holds. |
| NewWorld.World.CopyCell | src/new_world.rs:255 | One copy of cell `(x, y)` extends the loop invariant: the overlap is copied up to that cell in row-major order, and every later cell still holds the default. |
| NewWorld.ResizeShrinkBack | src/new_world.rs:248-262 | Growing a world and shrinking it back to its old size gives the original cells. |
| NewWorld.ResizedInAlphabet | src/new_world.rs:251 | Resizing keeps every cell in the alphabet. |
| NewWorld.World.Get | src/new_world.rs:264-269 | Returns the cell at the normalised coordinates, which is in the alphabet. |
| NewWorld.World.Set | src/new_world.rs:271-276 | The new grid is the old one with only the normalised cell replaced. |
| NewWorld.World.SetRect | src/new_world.rs:278-284 | The new grid is `PaintRect` of the old one: `v` in the wrapped rectangle, the old state elsewhere. |
| NewWorld.PaintRect | src/new_world.rs:278-284 | Painting keeps the grid's dimensions. `NewWorld.PaintedIff` proves which cells it paints. |
| NewWorld.PaintedIff | src/new_world.rs:278-284 | A cell is in `PaintRect`'s rectangle exactly when some `set(x + ix, y + iy)` with `ix < w` and `iy < h` addresses it. |
| NewWorld.HitIff | src/new_world.rs:279-281 | Along one axis, a coordinate is hit by one of the first `k` wrapped writes exactly when it lies less than `k` after the start. |
| NewWorld.World.IsIntermediateStep | src/new_world.rs:286-288 | Returns the phase flag. |
| NewWorld.World.GetBlock | src/new_world.rs:290-297 | The code is below `n^4` and is the rule set's code of the block at `(x, y)`. |
| NewWorld.World.SetBlock | src/new_world.rs:300-306 | The new grid is the old one after the four wrapped writes of the decoded code. |
| NewWorld.World.SweepStep | src/new_world.rs:217-221 | One block visit extends the loop invariant by one block. |
| NewWorld.World.Sweep | src/new_world.rs:214-225 | The nested block loops leave the grid after one phase with the given table and origin. |
| NewWorld.World.Step | src/new_world.rs:309-316 | The new world is `StepSpec` of the old one: `step1` at offset 0 when the flag is clear, `step2` at offset 1 when it is set, then the flag flips. |
| NewWorld.World.StepBack | src/new_world.rs:318-326 | The new world is `StepBackAsWritten` of the old one: `step1_invert` at offset 1 when the flag is set, `step2_invert` at offset 0 when it is clear, then the flag flips. |
| NewWorld.StepBackAsWrittenDoesNotUndo | src/new_world.rs:318-326 | For a valid two-state rule set and a 2x2 world, `step` followed by the `step_back` as written leaves a world different from the original. |
| NewWorld.StepBackIntended | src/new_world.rs:318-326 | The intended `step_back` keeps the dimensions and the alphabet and flips the phase flag. `NewWorld.StepThenBackIntended` and `NewWorld.BackIntendedThenStep` prove that it is the inverse of `step`. |
| NewWorld.StepThenBackIntended | src/new_world.rs:309-326 | The intended `step_back` (each inverse at the offset its table was used with) undoes `step`. |
| NewWorld.BackIntendedThenStep | src/new_world.rs:309-326 | `step` undoes the intended `step_back`. |
| NewWorld.BackStepsIntendedUndoSteps | src/new_world.rs:309-326 | `k` steps are undone by `k` intended back-steps. |
| NewWorld.Mouse3AsWritten | src/new_world.rs:115-117 | The two-state `mouse_3` of the generalised engine agrees with the rules module. |
| NewWorld.Mouse3OutsideAlphabet | src/new_world.rs:197-199 | The three-state `mouse_3` as written, 3, is outside the alphabet and differs from the rules module's 0. |

## Left out

- `src/main.rs` is not part of this model. It is the render loop, keyboard and
  mouse input, and drawing; it only calls `step`, `step_back` and `set`.
- `src/permutation_string.rs` is not part of this model. Its conversions are
  empty or unfinished, so there is no behaviour to state.
- Rust plumbing is not modelled: `Box<dyn Rules>`, `clone_box`, the derives,
  and the `u8`/`usize` conversions.
- The `lazy_static` inverse table is not computed lazily. It is the constant
  `CrittersArrayInvert`, which is proved to be what the lazy computation
  returns.
- The `arr`/`arr_mut` slice accessors of `src/new_world.rs` are not modelled.
  They only expose the storage.
- Integers are unbounded. Overflow of `usize` in `x + ix` or
  `halfwidth * 2` is not modelled.
- Overflow of the `u8` block code is not modelled. It cannot happen for
  in-alphabet cells, whose codes are below 81.
- Zero half-dimensions are not modelled. There, `normalize` divides by zero,
  so the constructors and `set_new_size` require half-dimensions of at least 1.
- NewWorld.World.Set: requires an in-alphabet value. The source stores any
  `u8`, but a later `get_block` would then index past the table and panic. The
  same precondition is on `SetRect`, and `SetBlock` requires a code below `n^4`.
- CrittersWorld.World.SetBlock: the bit tests `val & 0b1000 != 0` and so on are
  written as `(v / 8) % 2 == 1` and so on, which is the same test.
- NewWorld.World.StepBack: models `step_back` as written. No round trip is
  claimed for it. The intended back-step exists only as the pure
  `StepBackIntended`.
- The block visit order of the loops (columns outer, rows inner) is kept. It is
  not observable, because the blocks of a phase are disjoint.

## Findings

| source | as written | input that shows it | evidently intended | confidence | as-written member | corrected member |
|---|---|---|---|---|---|---|
| src/new_world.rs:318-326 | `step_back` applies `step1_invert` at offset 1 and `step2_invert` at offset 0, the opposite of the offsets `step` used for `step1` and `step2` (:310-313) | 2x2 two-state world with only cell (0, 0) alive, flag clear, every table the swap of codes 8 and 4: `step` moves the cell to (1, 0), and `step_back` then runs on the other partition and leaves it there | undo the last phase with the inverse table at the same offset, as `src/world.rs:77` does | not executed | NewWorld.StepBackAsWrittenDoesNotUndo | NewWorld.StepThenBackIntended |
| src/new_world.rs:197-199 | the three-state `mouse_3` returns state 3 | three-state world, flag clear: painting `mouse_3` at (0, 0) stores 3, and the next `step` reads a code of 81 or more at block (0, 0), past the end of the 81-entry `step1` table. At the other corners of a block the 3 is silently misread as part of another block's code | state 0, as `src/rules.rs:219-221` returns | not executed | NewWorld.Mouse3OutsideAlphabet | Rules.Mouse3 |
