/** The generalised engine of src/new_world.rs: cells of a two- or
    three-state alphabet in a flat row-major vector, a rule set carrying the
    tables of both phases and their inverses, and a flag telling which
    phase comes next. */
module NewWorld {
  import opened Arith
  import opened Rules
  import opened Torus
  import opened Margolus

  // ---------------------------------------------------------------------
  // The special states of the rule objects

  /** `mouse_3` of the two rule objects as written: `CellState(0)` for two
      states, `CellState(3)` for three. */
  function Mouse3AsWritten(n: Radix): (s: nat)
    ensures n == 2 ==> s == Mouse3(n)
  {
    if n == 2 then 0 else 3
  }

  /** The three-state `mouse_3` is not a state of the three-state alphabet,
      unlike `Mouse3`, the value of src/rules.rs, which is. */
  lemma Mouse3OutsideAlphabet()
    ensures Mouse3AsWritten(3) >= 3
    ensures Mouse3(3) < 3 && Mouse3(3) != Mouse3AsWritten(3)
  {
  }

  // ---------------------------------------------------------------------
  // The world as a value

  /** A world as a value: its cells, dimensions and phase flag. */
  datatype State = State(cells: seq<seq<nat>>, width: nat, height: nat, intermediateStep: bool)
  {
    predicate Valid(n: Radix) {
      Dims(width, height) && IsGrid(cells, width, height) && AllBelow(cells, n)
    }
  }

  /** What a valid rule set gives a phase: tables of in-range codes, each
      undone by its inverse. */
  lemma RuleTables(r: RuleSet)
    requires r.Valid()
    ensures TableInRange(r.n, r.step1) && TableInRange(r.n, r.step2)
    ensures TableInRange(r.n, r.step1Invert) && TableInRange(r.n, r.step2Invert)
    ensures |r.step1Invert| == BlockCount(r.n) && |r.step2Invert| == BlockCount(r.n)
    ensures Undoes(r.step1Invert, r.step1) && Undoes(r.step1, r.step1Invert)
    ensures Undoes(r.step2Invert, r.step2) && Undoes(r.step2, r.step2Invert)
  {
  }

  /** The phase with origin `o` and table `t` applied to a world. */
  function Phase(r: RuleSet, s: State, o: nat, t: seq<nat>): (s': State)
    requires r.Valid() && s.Valid(r.n) && o <= 1 && |t| == BlockCount(r.n) && TableInRange(r.n, t)
    ensures s'.Valid(r.n) && s'.width == s.width && s'.height == s.height
    ensures s'.intermediateStep == !s.intermediateStep
  {
    ApplyPhaseInAlphabet(s.cells, s.width, s.height, o, r.n, t);
    State(ApplyPhase(s.cells, s.width, s.height, o, r.n, t), s.width, s.height, !s.intermediateStep)
  }

  /** `step`: `step1` at offset 0 when the flag is clear, `step2` at
      offset 1 when it is set; then the flag flips. */
  function StepSpec(r: RuleSet, s: State): (s': State)
    requires r.Valid() && s.Valid(r.n)
    ensures s'.Valid(r.n) && s'.width == s.width && s'.height == s.height
    ensures s'.intermediateStep == !s.intermediateStep
  {
    RuleTables(r);
    if s.intermediateStep then Phase(r, s, 1, r.step2) else Phase(r, s, 0, r.step1)
  }

  /** `step_back` as written: `step1_invert` at offset 1 when the flag is
      set, `step2_invert` at offset 0 when it is clear; then the flag
      flips.  The offsets are the opposite of those `step` used with the
      matching tables. */
  function StepBackAsWritten(r: RuleSet, s: State): (s': State)
    requires r.Valid() && s.Valid(r.n)
    ensures s'.Valid(r.n) && s'.width == s.width && s'.height == s.height
    ensures s'.intermediateStep == !s.intermediateStep
  {
    RuleTables(r);
    if s.intermediateStep then Phase(r, s, 1, r.step1Invert) else Phase(r, s, 0, r.step2Invert)
  }

  /** `step_back` as intended: undo the phase `step` applied last, with the
      same offset and the inverse of its table.  The flag is set after a
      `step1` phase at offset 0 and clear after a `step2` phase at
      offset 1. */
  function StepBackIntended(r: RuleSet, s: State): (s': State)
    requires r.Valid() && s.Valid(r.n)
    ensures s'.Valid(r.n) && s'.width == s.width && s'.height == s.height
    ensures s'.intermediateStep == !s.intermediateStep
  {
    RuleTables(r);
    if s.intermediateStep then Phase(r, s, 0, r.step1Invert) else Phase(r, s, 1, r.step2Invert)
  }

  /** The intended `step_back` undoes `step`. */
  lemma StepThenBackIntended(r: RuleSet, s: State)
    requires r.Valid() && s.Valid(r.n)
    ensures StepBackIntended(r, StepSpec(r, s)) == s
  {
    RuleTables(r);
    if s.intermediateStep {
      PhaseRoundTrip(s.cells, s.width, s.height, 1, r.n, r.step2, r.step2Invert);
    } else {
      PhaseRoundTrip(s.cells, s.width, s.height, 0, r.n, r.step1, r.step1Invert);
    }
  }

  /** `step` undoes the intended `step_back`. */
  lemma BackIntendedThenStep(r: RuleSet, s: State)
    requires r.Valid() && s.Valid(r.n)
    ensures StepSpec(r, StepBackIntended(r, s)) == s
  {
    RuleTables(r);
    if s.intermediateStep {
      PhaseRoundTrip(s.cells, s.width, s.height, 0, r.n, r.step1Invert, r.step1);
    } else {
      PhaseRoundTrip(s.cells, s.width, s.height, 1, r.n, r.step2Invert, r.step2);
    }
  }

  /** `k` calls of `step`. */
  function Steps(r: RuleSet, s: State, k: nat): (s': State)
    requires r.Valid() && s.Valid(r.n)
    ensures s'.Valid(r.n) && s'.width == s.width && s'.height == s.height
  {
    if k == 0 then s else StepSpec(r, Steps(r, s, k - 1))
  }

  /** `k` calls of the intended `step_back`. */
  function BackStepsIntended(r: RuleSet, s: State, k: nat): (s': State)
    requires r.Valid() && s.Valid(r.n)
    ensures s'.Valid(r.n) && s'.width == s.width && s'.height == s.height
    decreases k
  {
    if k == 0 then s else BackStepsIntended(r, StepBackIntended(r, s), k - 1)
  }

  /** `k` steps are undone by `k` intended back-steps. */
  lemma {:induction false} BackStepsIntendedUndoSteps(r: RuleSet, s: State, k: nat)
    requires r.Valid() && s.Valid(r.n)
    ensures BackStepsIntended(r, Steps(r, s, k), k) == s
  {
    if k > 0 {
      StepThenBackIntended(r, Steps(r, s, k - 1));
      BackStepsIntendedUndoSteps(r, s, k - 1);
    }
  }

  /** A two-state rule that swaps block codes 8 and 4 (a lone cell moves
      from the top-left to the top-right corner of its block) and keeps
      every other code; it is its own inverse. */
  function SwapRule(): seq<nat> {
    [0, 1, 2, 3, 8, 5, 6, 7, 4, 9, 10, 11, 12, 13, 14, 15]
  }

  lemma SwapRuleValid()
    ensures IsInverse(SwapRule(), SwapRule())
    ensures RuleSet(2, SwapRule(), SwapRule(), SwapRule(), SwapRule()).Valid()
  {
    var p := SwapRule();
    forall i | 0 <= i < |p| ensures p[i] < |p| && p[p[i]] == i {
      if i == 4 || i == 8 {
      } else {
        assert p[i] == i;
      }
    }
  }

  /** Under the swap rule, the phase at offset 0 moves a lone top-left
      cell of a 2x2 world to the top-right corner. */
  lemma SwapPhaseMovesCell(g: seq<seq<nat>>, w: nat, h: nat, n: Radix, t: seq<nat>)
    requires w == 2 && h == 2 && n == 2 && t == SwapRule()
    requires IsGrid(g, w, h) && g[0] == [1, 0] && g[1] == [0, 0]
    ensures PhaseArgs(g, w, h, 0, n, t)
    ensures var r := ApplyPhase(g, w, h, 0, n, t);
      r[0][0] == 0 && r[0][1] == 1 && r[1][0] == 0 && r[1][1] == 0
  {
    var r := ApplyPhase(g, w, h, 0, n, t);
    ApplyPhaseBlock(g, w, h, 0, n, t, 0, 0);
    assert LocalBlock(g, w, h, 0, 0) == Block(1, 0, 0, 0);
    assert ToBlockInt(n, Block(1, 0, 0, 0)) == 8;
    assert LocalBlock(r, w, h, 0, 0) == Block(0, 1, 0, 0);
  }

  /** Under the swap rule, the phase at offset 1 leaves a 2x2 world with
      one live top-right cell alone: its one block, with corner `(1, 1)`,
      reads code 2. */
  lemma SwapPhaseOtherPartition(g: seq<seq<nat>>, w: nat, h: nat, n: Radix, t: seq<nat>)
    requires w == 2 && h == 2 && n == 2 && t == SwapRule()
    requires IsGrid(g, w, h) && g[0] == [0, 1] && g[1] == [0, 0]
    ensures PhaseArgs(g, w, h, 1, n, t)
    ensures var r := ApplyPhase(g, w, h, 1, n, t);
      r[0][0] == 0 && r[0][1] == 1 && r[1][0] == 0 && r[1][1] == 0
  {
    SwapOtherBlock(g, w, h, n, t);
    WrappedBlockCells(ApplyPhase(g, w, h, 1, n, t), w, h);
  }

  /** In a 2x2 world the block with corner `(1, 1)` wraps around both
      axes. */
  lemma WrappedBlockCells(r: seq<seq<nat>>, w: nat, h: nat)
    requires w == 2 && h == 2 && IsGrid(r, w, h)
    ensures LocalBlock(r, w, h, 1, 1) == Block(r[1][1], r[1][0], r[0][1], r[0][0])
  {
  }

  lemma SwapOtherBlock(g: seq<seq<nat>>, w: nat, h: nat, n: Radix, t: seq<nat>)
    requires w == 2 && h == 2 && n == 2 && t == SwapRule()
    requires IsGrid(g, w, h) && g[0] == [0, 1] && g[1] == [0, 0]
    ensures PhaseArgs(g, w, h, 1, n, t)
    ensures LocalBlock(ApplyPhase(g, w, h, 1, n, t), w, h, 1, 1) == Block(0, 0, 1, 0)
  {
    assert PhaseArgs(g, w, h, 1, n, t);
    assert LocalBlock(g, w, h, 1, 1) == Block(0, 0, 1, 0) by {
      assert Next(1, w) == 0 && Next(1, h) == 0;
    }
    assert NewBlock(g, w, h, 1, n, t, 1, 1) == Block(0, 0, 1, 0) by {
      assert ToBlockInt(n, Block(0, 0, 1, 0)) == 2 && t[2] == 2;
    }
    ApplyPhaseBlock(g, w, h, 1, n, t, 0, 0);
  }

  /** `step` then `step_back` as written does not restore a 2x2 world with
      one live cell under the swap rule: the step moves the cell to the
      top-right corner, and the back step runs on the other partition,
      which leaves the world alone. */
  lemma StepBackAsWrittenDoesNotUndo(r: RuleSet, s: State)
    requires r == RuleSet(2, SwapRule(), SwapRule(), SwapRule(), SwapRule())
    requires s.width == 2 && s.height == 2 && !s.intermediateStep
    requires IsGrid(s.cells, s.width, s.height) && s.cells[0] == [1, 0] && s.cells[1] == [0, 0]
    ensures r.Valid() && s.Valid(r.n)
    ensures StepSpec(r, s).cells[0][0] == 0 && StepSpec(r, s).cells[0][1] == 1 && StepSpec(r, s).intermediateStep
    ensures StepBackAsWritten(r, StepSpec(r, s)).cells[0][0] == 0 && StepBackAsWritten(r, StepSpec(r, s)).cells[0][1] == 1
    ensures StepBackAsWritten(r, StepSpec(r, s)) != s
  {
    SwapRuleValid();
    assert s.Valid(r.n);
    SwapPhaseMovesCell(s.cells, s.width, s.height, r.n, r.step1);
    var s1 := StepSpec(r, s);
    SwapPhaseOtherPartition(s1.cells, s1.width, s1.height, r.n, r.step1Invert);
  }

  // ---------------------------------------------------------------------
  // `set_new_size`

  /** The grid after resizing to `w'` by `h'`: the cells of the overlap
      with the old grid are kept, every other cell is `d`. */
  function Resized(g: seq<seq<nat>>, w: nat, h: nat, w': nat, h': nat, d: nat): (r: seq<seq<nat>>)
    requires IsGrid(g, w, h)
    ensures IsGrid(r, w', h')
  {
    seq(h', y requires 0 <= y < h' => seq(w', x requires 0 <= x < w' => if x < w && y < h then g[y][x] else d))
  }

  /** Growing a grid and shrinking it back gives the original grid. */
  lemma ResizeShrinkBack(g: seq<seq<nat>>, w: nat, h: nat, w': nat, h': nat, d: nat, d': nat)
    requires IsGrid(g, w, h) && w <= w' && h <= h'
    ensures Resized(Resized(g, w, h, w', h', d), w', h', w, h, d') == g
  {
    var r := Resized(Resized(g, w, h, w', h', d), w', h', w, h, d');
    forall y | 0 <= y < h ensures r[y] == g[y] {
    }
  }

  /** Resizing keeps the cells in the alphabet when the fill state is. */
  lemma ResizedInAlphabet(g: seq<seq<nat>>, w: nat, h: nat, w': nat, h': nat, d: nat, n: nat)
    requires IsGrid(g, w, h) && AllBelow(g, n) && d < n
    ensures AllBelow(Resized(g, w, h, w', h', d), n)
  {
  }

  /** Loop invariant of the copy in `set_new_size`: the cells of the
      overlap in rows above `y0`, and in row `y0` left of `x0`, are copied;
      every other cell still holds `d`. */
  predicate CopiedUpTo(cur: seq<seq<nat>>, g: seq<seq<nat>>, w: nat, h: nat, w': nat, h': nat, d: nat, y0: nat, x0: nat)
    requires IsGrid(g, w, h)
  {
    && IsGrid(cur, w', h')
    && forall y, x :: 0 <= y < h' && 0 <= x < w' ==>
         cur[y][x] == if x < w && y < h && (y < y0 || (y == y0 && x < x0)) then g[y][x] else d
  }

  /** One cell after the copy of cell `(x0, y0)`. */
  lemma CopyStepCell(cur: seq<seq<nat>>, g: seq<seq<nat>>, w: nat, h: nat, w': nat, h': nat, d: nat,
                     y0: nat, x0: nat, x: nat, y: nat)
    requires IsGrid(g, w, h) && CopiedUpTo(cur, g, w, h, w', h', d, y0, x0)
    requires x0 < w && x0 < w' && y0 < h && y0 < h' && x < w' && y < h'
    ensures SetCell(cur, x0, y0, g[y0][x0])[y][x] ==
      if x < w && y < h && (y < y0 || (y == y0 && x < x0 + 1)) then g[y][x] else d
  {
    assert cur[y][x] == if x < w && y < h && (y < y0 || (y == y0 && x < x0)) then g[y][x] else d;
  }

  /** The inner loop body of `set_new_size` copies one more cell. */
  lemma CopyStep(cur: seq<seq<nat>>, g: seq<seq<nat>>, w: nat, h: nat, w': nat, h': nat, d: nat, y0: nat, x0: nat)
    requires IsGrid(g, w, h) && CopiedUpTo(cur, g, w, h, w', h', d, y0, x0)
    requires x0 < w && x0 < w' && y0 < h && y0 < h'
    ensures CopiedUpTo(SetCell(cur, x0, y0, g[y0][x0]), g, w, h, w', h', d, y0, x0 + 1)
  {
    forall y, x | 0 <= y < h' && 0 <= x < w' {
      CopyStepCell(cur, g, w, h, w', h', d, y0, x0, x, y);
    }
  }

  /** One cell when the copy moves to the next row. */
  lemma CopyNextRowCell(cur: seq<seq<nat>>, g: seq<seq<nat>>, w: nat, h: nat, w': nat, h': nat, d: nat,
                        y0: nat, x: nat, y: nat)
    requires IsGrid(g, w, h) && CopiedUpTo(cur, g, w, h, w', h', d, y0, if w < w' then w else w')
    requires x < w' && y < h'
    ensures cur[y][x] == if x < w && y < h && y < y0 + 1 then g[y][x] else d
  {
    var m := if w < w' then w else w';
    assert cur[y][x] == if x < w && y < h && (y < y0 || (y == y0 && x < m)) then g[y][x] else d;
  }

  /** When a row of the overlap is copied the copy moves to the next row. */
  lemma CopyNextRow(cur: seq<seq<nat>>, g: seq<seq<nat>>, w: nat, h: nat, w': nat, h': nat, d: nat, y0: nat)
    requires IsGrid(g, w, h) && CopiedUpTo(cur, g, w, h, w', h', d, y0, if w < w' then w else w')
    ensures CopiedUpTo(cur, g, w, h, w', h', d, y0 + 1, 0)
  {
    forall y, x | 0 <= y < h' && 0 <= x < w' {
      CopyNextRowCell(cur, g, w, h, w', h', d, y0, x, y);
    }
  }

  /** When every row of the overlap is copied the grid is the resized one. */
  lemma CopyDone(cur: seq<seq<nat>>, g: seq<seq<nat>>, w: nat, h: nat, w': nat, h': nat, d: nat)
    requires IsGrid(g, w, h) && CopiedUpTo(cur, g, w, h, w', h', d, if h < h' then h else h', 0)
    ensures cur == Resized(g, w, h, w', h', d)
  {
    var r := Resized(g, w, h, w', h', d);
    forall y | 0 <= y < h' ensures cur[y] == r[y] {
      forall x | 0 <= x < w' ensures cur[y][x] == r[y][x] {
        var m := if h < h' then h else h';
        assert cur[y][x] == if x < w && y < h && y < m then g[y][x] else d;
      }
    }
  }

  // ---------------------------------------------------------------------
  // `set_rect`

  /** The coordinate `x + i`, normalised: what `set(x + ix, ...)` writes. */
  function Wrapped(x: nat, i: nat, size: nat): nat
    requires size > 0
  {
    Normalize(x + i, size)
  }

  lemma DistOfWrapped(x: nat, i: nat, size: nat)
    requires size > 0
    ensures Dist(Wrapped(x, i, size), x, size) == i % size
  {
    var q := (x + i) / size;
    var c := Wrapped(x, i, size);
    assert x + i == q * size + c;
    assert c - x == (i / size - q) * size + i % size;
    DivModUnique(c - x, size, i / size - q, i % size);
  }

  lemma DistInjective(c: nat, c': nat, x: nat, size: nat)
    requires size > 0 && c < size && c' < size && Dist(c, x, size) == Dist(c', x, size)
    ensures c == c'
  {
    var a, b := (c - x) / size, (c' - x) / size;
    assert c - c' == (a - b) * size;
    if a > b {
      MulMonotone(1, a - b, size);
      assert false;
    } else if a < b {
      MulMonotone(1, b - a, size);
      assert false;
    }
  }

  /** The write `x + Dist(c, x)` hits `c`. */
  lemma HitWitness(c: nat, x: nat, size: nat)
    requires size > 0 && c < size
    ensures Wrapped(x, Dist(c, x, size), size) == c
  {
    var dc := Dist(c, x, size);
    DistOfWrapped(x, dc, size);
    DivModUnique(dc, size, 0, dc);
    DistInjective(Wrapped(x, dc, size), c, x, size);
  }

  /** The write `x + i` hits a coordinate at most `i` after `x`. */
  lemma HitBound(x: nat, i: nat, size: nat)
    requires size > 0
    ensures Dist(Wrapped(x, i, size), x, size) <= i
  {
    DistOfWrapped(x, i, size);
    ModAtMost(i, size);
  }

  /** Coordinate `c` is hit by one of the first `k` writes `x + i` along
      an axis exactly when it lies less than `k` after `x`. */
  lemma HitIff(c: nat, x: nat, k: nat, size: nat)
    requires size > 0 && c < size
    ensures Dist(c, x, size) < k <==> exists i :: 0 <= i < k && Wrapped(x, i, size) == c
  {
    if Dist(c, x, size) < k {
      HitWitness(c, x, size);
    }
    forall i | 0 <= i < k && Wrapped(x, i, size) == c ensures Dist(c, x, size) < k {
      HitBound(x, i, size);
    }
  }

  /** One more write along an axis hits exactly the coordinate `x + i`. */
  lemma HitStep(c: nat, x: nat, i: nat, size: nat)
    requires size > 0 && c < size
    ensures Dist(c, x, size) < i + 1 <==> Dist(c, x, size) < i || c == Wrapped(x, i, size)
  {
    var dc := Dist(c, x, size);
    DistOfWrapped(x, i, size);
    ModAtMost(i, size);
    if i < size {
      assert i % size == i by { DivModUnique(i, size, 0, i); }
      if dc == i {
        DistInjective(c, Wrapped(x, i, size), x, size);
      }
    }
  }

  /** The cell `(cx, cy)` lies in the `rw` by `rh` rectangle whose corner
      is `(x, y)`, wrapping around the torus. */
  predicate Painted(w: nat, h: nat, x: nat, y: nat, rw: nat, rh: nat, cx: nat, cy: nat)
    requires w > 0 && h > 0
  {
    Dist(cx, x, w) < rw && Dist(cy, y, h) < rh
  }

  /** The grid after `set_rect(x, y, rw, rh, v)`. */
  function PaintRect(g: seq<seq<nat>>, w: nat, h: nat, x: nat, y: nat, rw: nat, rh: nat, v: nat): (r: seq<seq<nat>>)
    requires w > 0 && h > 0 && IsGrid(g, w, h)
    ensures IsGrid(r, w, h)
  {
    seq(h, cy requires 0 <= cy < h => seq(w, cx requires 0 <= cx < w =>
      if Painted(w, h, x, y, rw, rh, cx, cy) then v else g[cy][cx]))
  }

  /** A cell is painted exactly when some `set(x + ix, y + iy)` with
      `ix < rw` and `iy < rh` addresses it; every other cell is left
      alone. */
  lemma PaintedIff(w: nat, h: nat, x: nat, y: nat, rw: nat, rh: nat, cx: nat, cy: nat)
    requires w > 0 && h > 0 && cx < w && cy < h
    ensures Painted(w, h, x, y, rw, rh, cx, cy) <==>
      (exists ix :: 0 <= ix < rw && Wrapped(x, ix, w) == cx) &&
      (exists iy :: 0 <= iy < rh && Wrapped(y, iy, h) == cy)
  {
    HitIff(cx, x, rw, w);
    HitIff(cy, y, rh, h);
  }

  /** Whether `set_rect` has painted cell `(cx, cy)` once its loops have
      done the rows `y .. y + iy - 1` of the rectangle and the first `ix`
      cells of row `y + iy`. */
  predicate PaintedSoFar(w: nat, h: nat, x: nat, y: nat, rw: nat, ix: nat, iy: nat, cx: nat, cy: nat)
    requires w > 0 && h > 0
  {
    (Dist(cy, y, h) < iy && Dist(cx, x, w) < rw) || (cy == Wrapped(y, iy, h) && Dist(cx, x, w) < ix)
  }

  /** Loop invariant of `set_rect`: the cells painted so far hold `v`, the
      others their old state. */
  predicate PaintedUpTo(cur: seq<seq<nat>>, g: seq<seq<nat>>, w: nat, h: nat, x: nat, y: nat, rw: nat, v: nat, ix: nat, iy: nat)
    requires w > 0 && h > 0 && IsGrid(g, w, h)
  {
    && IsGrid(cur, w, h)
    && forall cy, cx :: 0 <= cy < h && 0 <= cx < w ==>
         cur[cy][cx] == if PaintedSoFar(w, h, x, y, rw, ix, iy, cx, cy) then v else g[cy][cx]
  }

  /** One cell after the inner loop body of `set_rect`. */
  lemma PaintStepCell(cur: seq<seq<nat>>, g: seq<seq<nat>>, w: nat, h: nat, x: nat, y: nat, rw: nat, v: nat,
                      ix: nat, iy: nat, cx: nat, cy: nat)
    requires w > 0 && h > 0 && IsGrid(g, w, h) && PaintedUpTo(cur, g, w, h, x, y, rw, v, ix, iy) && ix < rw
    requires cx < w && cy < h
    ensures Update(cur, w, h, x + ix, y + iy, v)[cy][cx] ==
      if PaintedSoFar(w, h, x, y, rw, ix + 1, iy, cx, cy) then v else g[cy][cx]
  {
    assert cur[cy][cx] == if PaintedSoFar(w, h, x, y, rw, ix, iy, cx, cy) then v else g[cy][cx];
    HitStep(cx, x, ix, w);
  }

  /** The inner loop body of `set_rect` extends the invariant by one cell. */
  lemma PaintStep(cur: seq<seq<nat>>, g: seq<seq<nat>>, w: nat, h: nat, x: nat, y: nat, rw: nat, v: nat, ix: nat, iy: nat)
    requires w > 0 && h > 0 && IsGrid(g, w, h) && PaintedUpTo(cur, g, w, h, x, y, rw, v, ix, iy) && ix < rw
    ensures PaintedUpTo(Update(cur, w, h, x + ix, y + iy, v), g, w, h, x, y, rw, v, ix + 1, iy)
  {
    var next := Update(cur, w, h, x + ix, y + iy, v);
    forall cy, cx | 0 <= cy < h && 0 <= cx < w
      ensures next[cy][cx] == if PaintedSoFar(w, h, x, y, rw, ix + 1, iy, cx, cy) then v else g[cy][cx]
    {
      PaintStepCell(cur, g, w, h, x, y, rw, v, ix, iy, cx, cy);
    }
  }

  /** One cell when the invariant moves to the next row. */
  lemma PaintNextRowCell(cur: seq<seq<nat>>, g: seq<seq<nat>>, w: nat, h: nat, x: nat, y: nat, rw: nat, v: nat,
                         iy: nat, cx: nat, cy: nat)
    requires w > 0 && h > 0 && IsGrid(g, w, h) && PaintedUpTo(cur, g, w, h, x, y, rw, v, rw, iy)
    requires cx < w && cy < h
    ensures cur[cy][cx] == if PaintedSoFar(w, h, x, y, rw, 0, iy + 1, cx, cy) then v else g[cy][cx]
  {
    assert cur[cy][cx] == if PaintedSoFar(w, h, x, y, rw, rw, iy, cx, cy) then v else g[cy][cx];
    HitStep(cy, y, iy, h);
  }

  /** At the end of a row the invariant moves to the next row. */
  lemma PaintNextRow(cur: seq<seq<nat>>, g: seq<seq<nat>>, w: nat, h: nat, x: nat, y: nat, rw: nat, v: nat, iy: nat)
    requires w > 0 && h > 0 && IsGrid(g, w, h) && PaintedUpTo(cur, g, w, h, x, y, rw, v, rw, iy)
    ensures PaintedUpTo(cur, g, w, h, x, y, rw, v, 0, iy + 1)
  {
    forall cy, cx | 0 <= cy < h && 0 <= cx < w
      ensures cur[cy][cx] == if PaintedSoFar(w, h, x, y, rw, 0, iy + 1, cx, cy) then v else g[cy][cx]
    {
      PaintNextRowCell(cur, g, w, h, x, y, rw, v, iy, cx, cy);
    }
  }

  /** After the last row the invariant is the whole rectangle. */
  lemma PaintDone(cur: seq<seq<nat>>, g: seq<seq<nat>>, w: nat, h: nat, x: nat, y: nat, rw: nat, rh: nat, v: nat)
    requires w > 0 && h > 0 && IsGrid(g, w, h) && PaintedUpTo(cur, g, w, h, x, y, rw, v, 0, rh)
    ensures cur == PaintRect(g, w, h, x, y, rw, rh, v)
  {
    var r := PaintRect(g, w, h, x, y, rw, rh, v);
    forall cy | 0 <= cy < h ensures cur[cy] == r[cy] {
    }
  }

  // ---------------------------------------------------------------------
  // The engine

  class World {
    const rules: RuleSet
    var arr: array<nat>
    var width: nat
    var height: nat
    var intermediateStep: bool

    /** The rule set is one the constructors can build, the dimensions are
        twice positive half-dimensions, the vector holds one cell per
        position and every cell is a state of the alphabet. */
    ghost predicate Valid()
      reads this, arr
    {
      && rules.Valid()
      && Dims(width, height)
      && arr.Length == width * height
      && AllBelow(Grid(arr[..], width, height), rules.n)
    }

    /** The cells as a grid. */
    ghost function Cells(): (g: seq<seq<nat>>)
      reads this, arr
      requires Valid()
      ensures IsGrid(g, width, height) && AllBelow(g, rules.n)
    {
      Grid(arr[..], width, height)
    }

    /** The world as a value. */
    ghost function Snapshot(): (s: State)
      reads this, arr
      requires Valid()
      ensures s.Valid(rules.n)
    {
      State(Cells(), width, height, intermediateStep)
    }

    /** `new`: a `2 * halfwidth` by `2 * halfheight` world whose cells all
        hold the default state, at the first phase. */
    constructor (rules: RuleSet, halfwidth: nat, halfheight: nat)
      requires rules.Valid() && halfwidth >= 1 && halfheight >= 1
      ensures Valid() && fresh(arr) && this.rules == rules
      ensures width == 2 * halfwidth && height == 2 * halfheight && !intermediateStep
      ensures Cells() == Filled(width, height, DefaultState(rules.n))
    {
      this.rules := rules;
      var w := halfwidth * 2;
      var h := halfheight * 2;
      var d := DefaultState(rules.n);
      arr := new nat[w * h](_ => d);
      width := w;
      height := h;
      intermediateStep := false;
      new;
      FlatFilled(arr[..], width, height, d);
    }

    /** `set_new_size`: a new vector of the new dimensions, filled with the
        default state, into which the overlap with the old grid is copied
        row by row. */
    method SetNewSize(halfwidth: nat, halfheight: nat)
      requires Valid() && halfwidth >= 1 && halfheight >= 1
      modifies this
      ensures Valid() && fresh(arr)
      ensures width == 2 * halfwidth && height == 2 * halfheight && intermediateStep == old(intermediateStep)
      ensures Cells() == Resized(old(Cells()), old(width), old(height), width, height, DefaultState(rules.n))
    {
      var newWidth := halfwidth * 2;
      var newHeight := halfheight * 2;
      var d := DefaultState(rules.n);
      var newArr := new nat[newWidth * newHeight](_ => d);
      FlatFilled(newArr[..], newWidth, newHeight, d);
      ghost var g := Cells();
      CopyOverlap(arr, width, height, newArr, newWidth, newHeight, d);
      ResizedInAlphabet(g, width, height, newWidth, newHeight, d, rules.n);
      arr := newArr;
      width := newWidth;
      height := newHeight;
    }

    /** The copy loops of `set_new_size`: the overlap of the `w` by `h`
        grid in `src` with the `w'` by `h'` grid in `dst`, which holds
        only `d`, is copied into `dst`. */
    static method CopyOverlap(src: array<nat>, w: nat, h: nat, dst: array<nat>, w': nat, h': nat, d: nat)
      requires src != dst && src.Length == w * h && dst.Length == w' * h'
      requires Grid(dst[..], w', h') == Filled(w', h', d)
      modifies dst
      ensures Grid(dst[..], w', h') == Resized(Grid(src[..], w, h), w, h, w', h', d)
    {
      ghost var g := Grid(src[..], w, h);
      var maxY := if h < h' then h else h';
      var maxX := if w < w' then w else w';
      var y := 0;
      while y < maxY
        invariant 0 <= y <= maxY
        invariant CopiedUpTo(Grid(dst[..], w', h'), g, w, h, w', h', d, y, 0)
      {
        var x := 0;
        while x < maxX
          invariant 0 <= x <= maxX
          invariant CopiedUpTo(Grid(dst[..], w', h'), g, w, h, w', h', d, y, x)
        {
          CopyCell(src, w, h, dst, w', h', d, g, x, y);
          x := x + 1;
        }
        CopyNextRow(Grid(dst[..], w', h'), g, w, h, w', h', d, y);
        y := y + 1;
      }
      CopyDone(Grid(dst[..], w', h'), g, w, h, w', h', d);
    }

    /** The body of the copy loops: cell `(x, y)` of the overlap is copied. */
    static method CopyCell(src: array<nat>, w: nat, h: nat, dst: array<nat>, w': nat, h': nat, d: nat,
                           ghost g: seq<seq<nat>>, x: nat, y: nat)
      requires src != dst && src.Length == w * h && dst.Length == w' * h' && g == Grid(src[..], w, h)
      requires x < w && x < w' && y < h && y < h'
      requires CopiedUpTo(Grid(dst[..], w', h'), g, w, h, w', h', d, y, x)
      modifies dst
      ensures CopiedUpTo(Grid(dst[..], w', h'), g, w, h, w', h', d, y, x + 1)
    {
      ghost var before := dst[..];
      FlatRead(src[..], w, h, x, y);
      FlatWrite(before, w', h', x, y, g[y][x]);
      CopyStep(Grid(before, w', h'), g, w, h, w', h', d, y, x);
      dst[x + y * w'] := src[x + y * w];
      assert dst[..] == before[x + y * w' := g[y][x]];
    }

    /** `get`: the cell at the wrapped coordinates. */
    method Get(x: nat, y: nat) returns (v: nat)
      requires Valid()
      ensures v == At(Cells(), width, height, x, y) && v < rules.n
    {
      var nx := Normalize(x, width);
      var ny := Normalize(y, height);
      FlatRead(arr[..], width, height, nx, ny);
      v := arr[nx + ny * width];
    }

    /** `set`: the cell at the wrapped coordinates becomes `v`, which must
        be a state of the alphabet. */
    method Set(x: nat, y: nat, v: nat)
      requires Valid() && v < rules.n
      modifies arr
      ensures Valid()
      ensures Cells() == Update(old(Cells()), width, height, x, y, v)
    {
      var nx := Normalize(x, width);
      var ny := Normalize(y, height);
      FlatWrite(arr[..], width, height, nx, ny, v);
      arr[nx + ny * width] := v;
    }

    /** `set_rect`: every cell of the `w` by `h` rectangle at `(x, y)`,
        wrapping around the torus, becomes `v`. */
    method SetRect(x: nat, y: nat, w: nat, h: nat, v: nat)
      requires Valid() && v < rules.n
      modifies arr
      ensures Valid()
      ensures Cells() == PaintRect(old(Cells()), width, height, x, y, w, h, v)
    {
      ghost var g := Cells();
      var iy := 0;
      while iy < h
        invariant 0 <= iy <= h
        invariant Valid()
        invariant PaintedUpTo(Cells(), g, width, height, x, y, w, v, 0, iy)
      {
        var ix := 0;
        while ix < w
          invariant 0 <= ix <= w
          invariant Valid()
          invariant PaintedUpTo(Cells(), g, width, height, x, y, w, v, ix, iy)
        {
          ghost var before := Cells();
          PaintStep(before, g, width, height, x, y, w, v, ix, iy);
          Set(x + ix, y + iy, v);
          assert Cells() == Update(before, width, height, x + ix, y + iy, v);
          ix := ix + 1;
        }
        PaintNextRow(Cells(), g, width, height, x, y, w, v, iy);
        iy := iy + 1;
      }
      PaintDone(Cells(), g, width, height, x, y, w, h, v);
    }

    /** `is_intermediate_step`: whether the next step is the second phase. */
    method IsIntermediateStep() returns (b: bool)
      requires Valid()
      ensures b == Snapshot().intermediateStep
    {
      b := intermediateStep;
    }

    /** `get_block`: the code of the block at `(x, y)` under the rule set's
        codec. */
    method GetBlock(x: nat, y: nat) returns (code: nat)
      requires Valid()
      ensures code < BlockCount(rules.n)
      ensures code == ToBlockInt(rules.n, ReadBlock(Cells(), width, height, x, y))
    {
      var a := Get(x, y);
      var b := Get(x + 1, y);
      var c := Get(x, y + 1);
      var d := Get(x + 1, y + 1);
      EncodeRoundTrip(rules.n, Block(a, b, c, d));
      code := ToBlockInt(rules.n, Block(a, b, c, d));
    }

    /** `set_block`: the four cells of the block at `(x, y)` become the
        decoded block code `v`. */
    method SetBlock(x: nat, y: nat, v: nat)
      requires Valid() && v < BlockCount(rules.n)
      modifies arr
      ensures Valid()
      ensures Cells() == WriteBlock(old(Cells()), width, height, x, y, FromBlockInt(rules.n, v))
    {
      DecodeRoundTrip(rules.n, v);
      var cells := FromBlockInt(rules.n, v);
      Set(x, y, cells.tl);
      Set(x + 1, y, cells.tr);
      Set(x, y + 1, cells.bl);
      Set(x + 1, y + 1, cells.br);
    }

    /** The body of the block loops: the block `(i, j)` of the partition
        with origin `o` is read and replaced by the entry of `t` at its
        code. */
    method SweepStep(o: nat, t: seq<nat>, ghost g: seq<seq<nat>>, i: nat, j: nat)
      requires Valid() && PhaseArgs(g, width, height, o, rules.n, t) && TableInRange(rules.n, t)
      requires i < width / 2 && j < height / 2 && SweptUpTo(Cells(), g, width, height, o, rules.n, t, i, j)
      modifies arr
      ensures Valid() && SweptUpTo(Cells(), g, width, height, o, rules.n, t, i, j + 1)
    {
      var x, y := i * 2 + o, j * 2 + o;
      assert x == Start(i, o) && y == Start(j, o);
      ghost var before := Cells();
      SweepBlock(before, g, width, height, o, rules.n, t, i, j);
      ReadBlockLocal(before, width, height, x, y);
      var current := GetBlock(x, y);
      assert current == ToBlockInt(rules.n, LocalBlock(g, width, height, x, y));
      var next := t[current];
      SetBlock(x, y, next);
      WriteBlockLocal(before, width, height, x, y, FromBlockInt(rules.n, next));
      assert FromBlockInt(rules.n, next) == NewBlock(g, width, height, o, rules.n, t, x, y);
      assert Cells() == LocalWrite(before, width, height, x, y, NewBlock(g, width, height, o, rules.n, t, x, y));
    }

    /** The `for_each_block!` loops over the blocks of the partition with
        origin `o`: each block is replaced by the entry of `t` at its
        code. */
    method Sweep(o: nat, t: seq<nat>)
      requires Valid() && o <= 1 && |t| == BlockCount(rules.n) && TableInRange(rules.n, t)
      modifies arr
      ensures Valid()
      ensures Cells() == ApplyPhase(old(Cells()), width, height, o, rules.n, t)
    {
      ghost var g := Cells();
      SweepStart(g, width, height, o, rules.n, t);
      var i := 0;
      while i < width / 2
        invariant 0 <= i <= width / 2
        invariant Valid()
        invariant SweptUpTo(Cells(), g, width, height, o, rules.n, t, i, 0)
      {
        var j := 0;
        while j < height / 2
          invariant 0 <= j <= height / 2
          invariant Valid()
          invariant SweptUpTo(Cells(), g, width, height, o, rules.n, t, i, j)
        {
          SweepStep(o, t, g, i, j);
          j := j + 1;
        }
        SweepNextColumn(Cells(), g, width, height, o, rules.n, t, i);
        i := i + 1;
      }
      SweepDone(Cells(), g, width, height, o, rules.n, t);
    }

    /** `step`: `step1` at offset 0 or `step2` at offset 1, by the flag,
        which then flips. */
    method Step()
      requires Valid()
      modifies this, arr
      ensures Valid() && arr == old(arr)
      ensures Snapshot() == StepSpec(rules, old(Snapshot()))
    {
      RuleTables(rules);
      if intermediateStep {
        Sweep(1, rules.step2);
      } else {
        Sweep(0, rules.step1);
      }
      intermediateStep := !intermediateStep;
    }

    /** `step_back` as written: `step1_invert` at offset 1 or
        `step2_invert` at offset 0, by the flag, which then flips. */
    method StepBack()
      requires Valid()
      modifies this, arr
      ensures Valid() && arr == old(arr)
      ensures Snapshot() == StepBackAsWritten(rules, old(Snapshot()))
    {
      RuleTables(rules);
      if intermediateStep {
        Sweep(1, rules.step1Invert);
      } else {
        Sweep(0, rules.step2Invert);
      }
      intermediateStep := !intermediateStep;
    }
  }
}
