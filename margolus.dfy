/** One phase of a Margolus-neighbourhood step, the common specification
    of the `step` and `step_back` loops of both worlds.  With partition
    origin `o` (0 or 1) the torus splits into the 2x2 blocks whose top-left
    corners are at `(2 * i + o, 2 * j + o)`; a phase replaces every one of
    them by the table entry of its code. */
module Margolus {
  import opened Arith
  import opened Rules
  import opened Torus

  // ---------------------------------------------------------------------
  // Geometry of one partition, along one axis

  /** How far coordinate `c` lies from the partition origin `o`, counting
      forwards around the torus. */
  function FromOrigin(c: nat, o: nat, size: nat): (r: nat)
    requires o <= 1 && c < size
    ensures r == if c >= o then c - o else c + size - o
  {
    assert Dist(c, o, size) == if c >= o then c - o else c + size - o by {
      if c >= o {
        DivModUnique(c - o, size, 0, c - o);
      } else {
        DivModUnique(c - o, size, -1, c + size - o);
      }
    }
    Dist(c, o, size)
  }

  /** Index, along one axis, of the partition block that holds coordinate
      `c`. */
  function BlockIndex(c: nat, o: nat, size: nat): nat
    requires o <= 1 && c < size
  {
    FromOrigin(c, o, size) / 2
  }

  /** Position of coordinate `c` inside its block: 0 for the first cell,
      1 for the second. */
  function Offset(c: nat, o: nat, size: nat): nat
    requires o <= 1 && c < size
  {
    FromOrigin(c, o, size) % 2
  }

  /** The first coordinate of the block with index `i`: the loop variable
      `i * 2 + offset` of the source. */
  function Start(i: nat, o: nat): nat {
    2 * i + o
  }

  /** The coordinate at position `d` of a block starting at `c`. */
  function Along(c: nat, d: nat, size: nat): nat
    requires c < size
  {
    if d == 0 then c else Next(c, size)
  }

  /** The cell of block `b` at column `dx` and row `dy` inside the block. */
  function Corner(b: Block, dx: nat, dy: nat): nat {
    if dy == 0 then (if dx == 0 then b.tl else b.tr)
    else (if dx == 0 then b.bl else b.br)
  }

  /** Every coordinate lies in exactly one block of the partition: the
      block `BlockIndex(c)`, at position `Offset(c)`. */
  lemma CoordinateInBlock(c: nat, o: nat, size: nat)
    requires o <= 1 && size >= 2 && size % 2 == 0 && c < size
    ensures BlockIndex(c, o, size) < size / 2 && Offset(c, o, size) <= 1
    ensures Start(BlockIndex(c, o, size), o) < size
    ensures c == Along(Start(BlockIndex(c, o, size), o), Offset(c, o, size), size)
  {
  }

  /** Position `d` of block `i` belongs to block `i`, at position `d`:
      with CoordinateInBlock, the blocks of one partition are pairwise
      disjoint and cover every coordinate exactly once. */
  lemma BlockCoordinate(i: nat, d: nat, o: nat, size: nat)
    requires o <= 1 && size >= 2 && size % 2 == 0 && i < size / 2 && d <= 1
    ensures Start(i, o) < size
    ensures BlockIndex(Along(Start(i, o), d, size), o, size) == i
    ensures Offset(Along(Start(i, o), d, size), o, size) == d
  {
  }

  // ---------------------------------------------------------------------
  // The phase

  /** What a phase needs: world dimensions, a grid of in-alphabet cells, an
      origin of 0 or 1 and a table with one entry per block code. */
  predicate PhaseArgs(g: seq<seq<nat>>, w: nat, h: nat, o: nat, n: Radix, t: seq<nat>) {
    Dims(w, h) && IsGrid(g, w, h) && o <= 1 && AllBelow(g, n) && |t| == BlockCount(n)
  }

  /** Every entry of the table is a block code of the alphabet. */
  predicate TableInRange(n: Radix, t: seq<nat>) {
    forall i :: 0 <= i < |t| ==> t[i] < BlockCount(n)
  }

  /** The block the loop body writes at corner `(x, y)`: the table entry of
      the code of the block found there, decoded. */
  function NewBlock(g: seq<seq<nat>>, w: nat, h: nat, o: nat, n: Radix, t: seq<nat>, x: nat, y: nat): Block
    requires PhaseArgs(g, w, h, o, n, t) && x < w && y < h
  {
    var b := LocalBlock(g, w, h, x, y);
    EncodeRoundTrip(n, b);
    FromBlockInt(n, t[ToBlockInt(n, b)])
  }

  /** The state of cell `(x, y)` after the phase: the cell at the same place
      in the new contents of the block that holds it. */
  function StepCell(g: seq<seq<nat>>, w: nat, h: nat, o: nat, n: Radix, t: seq<nat>, x: nat, y: nat): nat
    requires PhaseArgs(g, w, h, o, n, t) && x < w && y < h
  {
    CoordinateInBlock(x, o, w);
    CoordinateInBlock(y, o, h);
    var b := NewBlock(g, w, h, o, n, t, Start(BlockIndex(x, o, w), o), Start(BlockIndex(y, o, h), o));
    Corner(b, Offset(x, o, w), Offset(y, o, h))
  }

  /** The grid after one phase with origin `o` and table `t`. */
  function ApplyPhase(g: seq<seq<nat>>, w: nat, h: nat, o: nat, n: Radix, t: seq<nat>): (r: seq<seq<nat>>)
    requires PhaseArgs(g, w, h, o, n, t)
    ensures IsGrid(r, w, h)
  {
    seq(h, y requires 0 <= y < h => seq(w, x requires 0 <= x < w => StepCell(g, w, h, o, n, t, x, y)))
  }

  // ---------------------------------------------------------------------
  // What a phase does

  /** The cell at position `(dx, dy)` of the block at `(x, y)` is that
      corner of the block. */
  lemma CornerOfBlock(g: seq<seq<nat>>, w: nat, h: nat, x: nat, y: nat, dx: nat, dy: nat)
    requires IsGrid(g, w, h) && x < w && y < h && dx <= 1 && dy <= 1
    ensures Corner(LocalBlock(g, w, h, x, y), dx, dy) == g[Along(y, dy, h)][Along(x, dx, w)]
  {
  }

  /** After a phase, the cell at position `(dx, dy)` of block `(i, j)` holds
      that position of the block's new contents. */
  lemma ApplyPhaseCorner(g: seq<seq<nat>>, w: nat, h: nat, o: nat, n: Radix, t: seq<nat>,
                         i: nat, j: nat, dx: nat, dy: nat)
    requires PhaseArgs(g, w, h, o, n, t) && i < w / 2 && j < h / 2 && dx <= 1 && dy <= 1
    ensures Start(i, o) < w && Start(j, o) < h
    ensures ApplyPhase(g, w, h, o, n, t)[Along(Start(j, o), dy, h)][Along(Start(i, o), dx, w)]
         == Corner(NewBlock(g, w, h, o, n, t, Start(i, o), Start(j, o)), dx, dy)
  {
    BlockCoordinate(i, dx, o, w);
    BlockCoordinate(j, dy, o, h);
  }

  /** After a phase, every block of the partition holds the table image of
      its old contents: the phase is "replace each block by the table entry
      of its code". */
  lemma ApplyPhaseBlock(g: seq<seq<nat>>, w: nat, h: nat, o: nat, n: Radix, t: seq<nat>, i: nat, j: nat)
    requires PhaseArgs(g, w, h, o, n, t) && i < w / 2 && j < h / 2
    ensures Start(i, o) < w && Start(j, o) < h
    ensures LocalBlock(ApplyPhase(g, w, h, o, n, t), w, h, Start(i, o), Start(j, o))
         == NewBlock(g, w, h, o, n, t, Start(i, o), Start(j, o))
  {
    ApplyPhaseCorner(g, w, h, o, n, t, i, j, 0, 0);
    ApplyPhaseCorner(g, w, h, o, n, t, i, j, 1, 0);
    ApplyPhaseCorner(g, w, h, o, n, t, i, j, 0, 1);
    ApplyPhaseCorner(g, w, h, o, n, t, i, j, 1, 1);
  }

  /** A phase with a table of in-range codes keeps every cell in the
      alphabet. */
  lemma ApplyPhaseInAlphabet(g: seq<seq<nat>>, w: nat, h: nat, o: nat, n: Radix, t: seq<nat>)
    requires PhaseArgs(g, w, h, o, n, t) && TableInRange(n, t)
    ensures AllBelow(ApplyPhase(g, w, h, o, n, t), n)
  {
    var r := ApplyPhase(g, w, h, o, n, t);
    forall y, x | 0 <= y < h && 0 <= x < w ensures r[y][x] < n {
      CoordinateInBlock(x, o, w);
      CoordinateInBlock(y, o, h);
      var b := LocalBlock(g, w, h, Start(BlockIndex(x, o, w), o), Start(BlockIndex(y, o, h), o));
      EncodeRoundTrip(n, b);
      DecodeRoundTrip(n, t[ToBlockInt(n, b)]);
    }
  }

  /** The new contents of a block, read back through a table that undoes
      `t`, are its old contents. */
  lemma NewBlockUndone(g: seq<seq<nat>>, g': seq<seq<nat>>, w: nat, h: nat, o: nat, n: Radix,
                       t: seq<nat>, u: seq<nat>, x: nat, y: nat)
    requires PhaseArgs(g, w, h, o, n, t) && TableInRange(n, t) && x < w && y < h
    requires PhaseArgs(g', w, h, o, n, u) && Undoes(u, t)
    requires LocalBlock(g', w, h, x, y) == NewBlock(g, w, h, o, n, t, x, y)
    ensures NewBlock(g', w, h, o, n, u, x, y) == LocalBlock(g, w, h, x, y)
  {
    var b := LocalBlock(g, w, h, x, y);
    EncodeRoundTrip(n, b);
    DecodeRoundTrip(n, t[ToBlockInt(n, b)]);
  }

  /** A phase with table `t` followed by a phase with the same origin and a
      table `u` that undoes `t` gives back the grid it started from. */
  lemma PhaseRoundTrip(g: seq<seq<nat>>, w: nat, h: nat, o: nat, n: Radix, t: seq<nat>, u: seq<nat>)
    requires PhaseArgs(g, w, h, o, n, t) && TableInRange(n, t)
    requires |u| == BlockCount(n) && Undoes(u, t)
    ensures AllBelow(ApplyPhase(g, w, h, o, n, t), n)
    ensures ApplyPhase(ApplyPhase(g, w, h, o, n, t), w, h, o, n, u) == g
  {
    var g1 := ApplyPhase(g, w, h, o, n, t);
    ApplyPhaseInAlphabet(g, w, h, o, n, t);
    var g2 := ApplyPhase(g1, w, h, o, n, u);
    forall y, x | 0 <= y < h && 0 <= x < w ensures g2[y][x] == g[y][x] {
      CoordinateInBlock(x, o, w);
      CoordinateInBlock(y, o, h);
      var i, j := BlockIndex(x, o, w), BlockIndex(y, o, h);
      var dx, dy := Offset(x, o, w), Offset(y, o, h);
      ApplyPhaseBlock(g, w, h, o, n, t, i, j);
      NewBlockUndone(g, g1, w, h, o, n, t, u, Start(i, o), Start(j, o));
      CornerOfBlock(g, w, h, Start(i, o), Start(j, o), dx, dy);
    }
    assert forall y | 0 <= y < h :: g2[y] == g[y];
  }

  // ---------------------------------------------------------------------
  // The block-by-block loop of `step`

  /** The block of cell `(x, y)` comes before block `(i, j)` in the loop
      order of the source: columns outside, rows inside. */
  predicate Swept(w: nat, h: nat, o: nat, x: nat, y: nat, i: nat, j: nat)
    requires o <= 1 && x < w && y < h
  {
    BlockIndex(x, o, w) < i || (BlockIndex(x, o, w) == i && BlockIndex(y, o, h) < j)
  }

  /** The loop invariant: cells of the blocks already visited hold their new
      state, every other cell its old one. */
  predicate SweptUpTo(cur: seq<seq<nat>>, g: seq<seq<nat>>, w: nat, h: nat, o: nat, n: Radix, t: seq<nat>, i: nat, j: nat)
    requires PhaseArgs(g, w, h, o, n, t)
  {
    && IsGrid(cur, w, h)
    && forall y, x :: 0 <= y < h && 0 <= x < w ==>
         cur[y][x] == if Swept(w, h, o, x, y, i, j) then StepCell(g, w, h, o, n, t, x, y) else g[y][x]
  }

  /** Before the loop no block has been visited. */
  lemma SweepStart(g: seq<seq<nat>>, w: nat, h: nat, o: nat, n: Radix, t: seq<nat>)
    requires PhaseArgs(g, w, h, o, n, t)
    ensures SweptUpTo(g, g, w, h, o, n, t, 0, 0)
  {
  }

  /** One cell after the loop body at block `(i, j)` has written the
      block's new contents. */
  lemma SweepCell(cur: seq<seq<nat>>, g: seq<seq<nat>>, w: nat, h: nat, o: nat, n: Radix, t: seq<nat>,
                  i: nat, j: nat, x: nat, y: nat)
    requires PhaseArgs(g, w, h, o, n, t) && i < w / 2 && j < h / 2 && x < w && y < h
    requires SweptUpTo(cur, g, w, h, o, n, t, i, j)
    ensures Start(i, o) < w && Start(j, o) < h
    ensures var next := LocalWrite(cur, w, h, Start(i, o), Start(j, o), NewBlock(g, w, h, o, n, t, Start(i, o), Start(j, o)));
      next[y][x] == if Swept(w, h, o, x, y, i, j + 1) then StepCell(g, w, h, o, n, t, x, y) else g[y][x]
  {
    var x0, y0 := Start(i, o), Start(j, o);
    BlockCoordinate(i, 0, o, w);
    BlockCoordinate(i, 1, o, w);
    BlockCoordinate(j, 0, o, h);
    BlockCoordinate(j, 1, o, h);
    CoordinateInBlock(x, o, w);
    CoordinateInBlock(y, o, h);
    LocalWriteAt(cur, w, h, x0, y0, NewBlock(g, w, h, o, n, t, x0, y0), x, y);
  }

  /** The loop body at block `(i, j)`: the block still holds its old
      contents, and writing its new contents extends the invariant to the
      next block. */
  lemma SweepBlock(cur: seq<seq<nat>>, g: seq<seq<nat>>, w: nat, h: nat, o: nat, n: Radix, t: seq<nat>, i: nat, j: nat)
    requires PhaseArgs(g, w, h, o, n, t) && i < w / 2 && j < h / 2
    requires SweptUpTo(cur, g, w, h, o, n, t, i, j)
    ensures Start(i, o) < w && Start(j, o) < h
    ensures LocalBlock(cur, w, h, Start(i, o), Start(j, o)) == LocalBlock(g, w, h, Start(i, o), Start(j, o))
    ensures SweptUpTo(LocalWrite(cur, w, h, Start(i, o), Start(j, o), NewBlock(g, w, h, o, n, t, Start(i, o), Start(j, o))),
                      g, w, h, o, n, t, i, j + 1)
  {
    BlockCoordinate(i, 0, o, w);
    BlockCoordinate(i, 1, o, w);
    BlockCoordinate(j, 0, o, h);
    BlockCoordinate(j, 1, o, h);
    forall y, x | 0 <= y < h && 0 <= x < w {
      SweepCell(cur, g, w, h, o, n, t, i, j, x, y);
    }
  }

  /** After the last block of a column the loop moves to the next column. */
  lemma SweepNextColumn(cur: seq<seq<nat>>, g: seq<seq<nat>>, w: nat, h: nat, o: nat, n: Radix, t: seq<nat>, i: nat)
    requires PhaseArgs(g, w, h, o, n, t)
    requires SweptUpTo(cur, g, w, h, o, n, t, i, h / 2)
    ensures SweptUpTo(cur, g, w, h, o, n, t, i + 1, 0)
  {
    forall y, x | 0 <= y < h && 0 <= x < w
      ensures Swept(w, h, o, x, y, i, h / 2) == Swept(w, h, o, x, y, i + 1, 0)
    {
      CoordinateInBlock(y, o, h);
    }
  }

  /** After the last column every block has been replaced: the loop has
      computed the phase. */
  lemma SweepDone(cur: seq<seq<nat>>, g: seq<seq<nat>>, w: nat, h: nat, o: nat, n: Radix, t: seq<nat>)
    requires PhaseArgs(g, w, h, o, n, t)
    requires SweptUpTo(cur, g, w, h, o, n, t, w / 2, 0)
    ensures cur == ApplyPhase(g, w, h, o, n, t)
  {
    var r := ApplyPhase(g, w, h, o, n, t);
    forall y | 0 <= y < h ensures cur[y] == r[y] {
      forall x | 0 <= x < w ensures cur[y][x] == r[y][x] {
        CoordinateInBlock(x, o, w);
      }
    }
  }
}
