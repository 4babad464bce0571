/** Toroidal addressing shared by both worlds (src/world.rs,
    src/new_world.rs).  Coordinates wrap modulo the width and height.  The
    worlds store their cells row by row in one flat vector at `x + y * width`;
    the specification reads that vector as a grid of rows, `g[y][x]`, and a
    block is the 2x2 square whose top-left corner is at the given
    coordinates. */
module Torus {
  import opened Arith
  import opened Rules

  /** `normalize`: a coordinate reduced modulo the grid size; the source
      only takes the remainder when the coordinate is out of range, which
      gives the same value. */
  function Normalize(v: nat, size: nat): (r: nat)
    requires size > 0
    ensures r < size && r == v % size
  {
    if v >= size then v % size
    else assert v % size == v by { DivModUnique(v, size, 0, v); } v
  }

  /** The dimensions a world keeps: twice its half-dimensions, so even, and
      at least 2 because the half-dimensions are at least 1. */
  predicate Dims(w: nat, h: nat) {
    w >= 2 && h >= 2 && w % 2 == 0 && h % 2 == 0
  }

  /** `g` has `h` rows of `w` cells each. */
  predicate IsGrid(g: seq<seq<nat>>, w: nat, h: nat) {
    |g| == h && forall y :: 0 <= y < h ==> |g[y]| == w
  }

  /** Every cell holds a state of an `n`-state alphabet. */
  predicate AllBelow(g: seq<seq<nat>>, n: nat) {
    forall y, x :: 0 <= y < |g| && 0 <= x < |g[y]| ==> g[y][x] < n
  }

  /** The grid with cell `(x, y)` replaced by `v`. */
  function SetCell(g: seq<seq<nat>>, x: nat, y: nat, v: nat): (r: seq<seq<nat>>)
    requires y < |g| && x < |g[y]|
    ensures |r| == |g| && forall y' :: 0 <= y' < |g| ==> |r[y']| == |g[y']|
    ensures forall y', x' :: 0 <= y' < |g| && 0 <= x' < |g[y']| ==>
      r[y'][x'] == if y' == y && x' == x then v else g[y'][x']
  {
    var row: seq<nat> := g[y][x := v];
    g[y := row]
  }

  /** A `w` by `h` grid whose every cell holds `v`. */
  function Filled(w: nat, h: nat, v: nat): (g: seq<seq<nat>>)
    ensures IsGrid(g, w, h)
    ensures forall y, x :: 0 <= y < h && 0 <= x < w ==> g[y][x] == v
  {
    seq(h, _ => seq(w, _ => v))
  }

  /** How far coordinate `c` lies after `x`, counting forwards around a
      torus of the given size. */
  function Dist(c: nat, x: nat, size: nat): (r: nat)
    requires size > 0
    ensures r < size
  {
    (c - x) % size
  }

  // ---------------------------------------------------------------------
  // The flat row-major vector of the source

  /** The cell at column `x`, row `y` of a flat row-major vector. */
  function FlatCell(s: seq<nat>, w: nat, h: nat, x: nat, y: nat): nat
    requires |s| == w * h && x < w && y < h
  {
    FlatIndex(x, y, w, h);
    s[x + y * w]
  }

  /** The flat vector read as a grid of rows. */
  function Grid(s: seq<nat>, w: nat, h: nat): (g: seq<seq<nat>>)
    requires |s| == w * h
    ensures IsGrid(g, w, h)
  {
    seq(h, y requires 0 <= y < h => seq(w, x requires 0 <= x < w => FlatCell(s, w, h, x, y)))
  }

  /** Reading position `x + y * w` of the vector reads cell `(x, y)`. */
  lemma FlatRead(s: seq<nat>, w: nat, h: nat, x: nat, y: nat)
    requires |s| == w * h && x < w && y < h
    ensures x + y * w < |s| && Grid(s, w, h)[y][x] == s[x + y * w]
  {
    FlatIndex(x, y, w, h);
  }

  /** Writing position `x + y * w` of the vector writes cell `(x, y)` of
      the grid and no other: distinct cells have distinct positions. */
  lemma FlatWrite(s: seq<nat>, w: nat, h: nat, x: nat, y: nat, v: nat)
    requires |s| == w * h && x < w && y < h
    ensures x + y * w < |s|
    ensures Grid(s[x + y * w := v], w, h) == SetCell(Grid(s, w, h), x, y, v)
  {
    FlatIndex(x, y, w, h);
    var a := Grid(s[x + y * w := v], w, h);
    var b := SetCell(Grid(s, w, h), x, y, v);
    forall y' | 0 <= y' < h ensures a[y'] == b[y'] {
      forall x' | 0 <= x' < w ensures a[y'][x'] == b[y'][x'] {
        FlatIndex(x', y', w, h);
      }
    }
  }

  /** A vector holding `v` everywhere is the grid filled with `v`. */
  lemma FlatFilled(s: seq<nat>, w: nat, h: nat, v: nat)
    requires |s| == w * h && forall k :: 0 <= k < |s| ==> s[k] == v
    ensures Grid(s, w, h) == Filled(w, h, v)
  {
    var a, b := Grid(s, w, h), Filled(w, h, v);
    forall y | 0 <= y < h ensures a[y] == b[y] {
      forall x | 0 <= x < w ensures a[y][x] == b[y][x] {
        FlatIndex(x, y, w, h);
      }
    }
  }

  // ---------------------------------------------------------------------
  // get, set and blocks on the torus

  /** `get`: the cell at the normalised coordinates. */
  function At(g: seq<seq<nat>>, w: nat, h: nat, x: nat, y: nat): (v: nat)
    requires w > 0 && h > 0 && IsGrid(g, w, h)
    ensures v == g[y % h][x % w]
  {
    g[Normalize(y, h)][Normalize(x, w)]
  }

  /** `set`: the grid with the cell at the normalised coordinates replaced. */
  function Update(g: seq<seq<nat>>, w: nat, h: nat, x: nat, y: nat, v: nat): (r: seq<seq<nat>>)
    requires w > 0 && h > 0 && IsGrid(g, w, h)
    ensures IsGrid(r, w, h)
  {
    SetCell(g, Normalize(x, w), Normalize(y, h), v)
  }

  lemma NormalizeShift(v: nat, size: nat)
    requires size > 0
    ensures Normalize(v + size, size) == Normalize(v, size)
  {
    DivModUnique(v + size, size, v / size + 1, v % size);
  }

  /** Adding the width to a column, or the height to a row, reads the same
      cell: the grid is a torus. */
  lemma AtPeriodic(g: seq<seq<nat>>, w: nat, h: nat, x: nat, y: nat)
    requires w > 0 && h > 0 && IsGrid(g, w, h)
    ensures At(g, w, h, x + w, y) == At(g, w, h, x, y)
    ensures At(g, w, h, x, y + h) == At(g, w, h, x, y)
  {
    NormalizeShift(x, w);
    NormalizeShift(y, h);
  }

  /** After a `set` at `(x, y)`, every coordinate pair congruent to it reads
      the new value and every other cell reads what it held before. */
  lemma UpdateAt(g: seq<seq<nat>>, w: nat, h: nat, x: nat, y: nat, v: nat, x': nat, y': nat)
    requires w > 0 && h > 0 && IsGrid(g, w, h)
    ensures At(Update(g, w, h, x, y, v), w, h, x', y') ==
      if x' % w == x % w && y' % h == y % h then v else At(g, w, h, x', y')
  {
  }

  /** A `set` changes only the one cell it addresses: the cells it leaves
      alone keep their values. */
  lemma UpdateOthers(g: seq<seq<nat>>, w: nat, h: nat, x: nat, y: nat, v: nat)
    requires w > 0 && h > 0 && IsGrid(g, w, h)
    ensures forall y', x' :: 0 <= y' < h && 0 <= x' < w && (y' != y % h || x' != x % w) ==>
      Update(g, w, h, x, y, v)[y'][x'] == g[y'][x']
  {
  }

  /** The four cells of the block at `(x, y)`, as `get_block` reads them. */
  function ReadBlock(g: seq<seq<nat>>, w: nat, h: nat, x: nat, y: nat): (b: Block)
    requires w > 0 && h > 0 && IsGrid(g, w, h)
    ensures b.tl == g[y % h][x % w] && b.tr == g[y % h][(x + 1) % w]
    ensures b.bl == g[(y + 1) % h][x % w] && b.br == g[(y + 1) % h][(x + 1) % w]
  {
    Block(At(g, w, h, x, y), At(g, w, h, x + 1, y), At(g, w, h, x, y + 1), At(g, w, h, x + 1, y + 1))
  }

  /** The four writes of `set_block`, in its order. */
  function WriteBlock(g: seq<seq<nat>>, w: nat, h: nat, x: nat, y: nat, b: Block): (r: seq<seq<nat>>)
    requires w > 0 && h > 0 && IsGrid(g, w, h)
    ensures IsGrid(r, w, h)
    ensures r[(y + 1) % h][(x + 1) % w] == b.br
  {
    var g1 := Update(g, w, h, x, y, b.tl);
    var g2 := Update(g1, w, h, x + 1, y, b.tr);
    var g3 := Update(g2, w, h, x, y + 1, b.bl);
    Update(g3, w, h, x + 1, y + 1, b.br)
  }

  // ---------------------------------------------------------------------
  // Blocks whose corner lies inside the grid

  /** The column (or row) after `c` on a torus of the given size. */
  function Next(c: nat, size: nat): (r: nat)
    requires c < size
    ensures r < size
  {
    if c + 1 == size then 0 else c + 1
  }

  /** Stepping one cell right (down) and normalising is `Next` of the
      normalised coordinate. */
  lemma NormalizeNext(v: nat, size: nat)
    requires size > 0
    ensures Normalize(v + 1, size) == Next(Normalize(v, size), size)
  {
    var q, r := v / size, v % size;
    if r + 1 < size {
      DivModUnique(v + 1, size, q, r + 1);
    } else {
      DivModUnique(v + 1, size, q + 1, 0);
    }
  }

  /** The block whose top-left corner is the in-range cell `(x, y)`. */
  function LocalBlock(g: seq<seq<nat>>, w: nat, h: nat, x: nat, y: nat): Block
    requires IsGrid(g, w, h) && x < w && y < h
  {
    var x1, y1 := Next(x, w), Next(y, h);
    Block(g[y][x], g[y][x1], g[y1][x], g[y1][x1])
  }

  /** Writing block `b` at the in-range corner `(x, y)`. */
  function LocalWrite(g: seq<seq<nat>>, w: nat, h: nat, x: nat, y: nat, b: Block): (r: seq<seq<nat>>)
    requires IsGrid(g, w, h) && x < w && y < h
    ensures IsGrid(r, w, h)
  {
    var x1, y1 := Next(x, w), Next(y, h);
    var g1 := SetCell(g, x, y, b.tl);
    var g2 := SetCell(g1, x1, y, b.tr);
    var g3 := SetCell(g2, x, y1, b.bl);
    SetCell(g3, x1, y1, b.br)
  }

  /** `get_block` at any coordinates reads the block at the normalised
      corner. */
  lemma ReadBlockLocal(g: seq<seq<nat>>, w: nat, h: nat, x: nat, y: nat)
    requires w > 0 && h > 0 && IsGrid(g, w, h)
    ensures ReadBlock(g, w, h, x, y) == LocalBlock(g, w, h, Normalize(x, w), Normalize(y, h))
  {
    NormalizeNext(x, w);
    NormalizeNext(y, h);
  }

  /** `set_block` at any coordinates writes the block at the normalised
      corner. */
  lemma WriteBlockLocal(g: seq<seq<nat>>, w: nat, h: nat, x: nat, y: nat, b: Block)
    requires w > 0 && h > 0 && IsGrid(g, w, h)
    ensures WriteBlock(g, w, h, x, y, b) == LocalWrite(g, w, h, Normalize(x, w), Normalize(y, h), b)
  {
    NormalizeNext(x, w);
    NormalizeNext(y, h);
  }

  /** What a block write leaves in each cell: the written corner where the
      cell is one of the block's four, the old value everywhere else.  On a
      torus at least two cells wide and high the four cells are distinct. */
  lemma LocalWriteAt(g: seq<seq<nat>>, w: nat, h: nat, x: nat, y: nat, b: Block, x': nat, y': nat)
    requires Dims(w, h) && IsGrid(g, w, h) && x < w && y < h && x' < w && y' < h
    ensures LocalWrite(g, w, h, x, y, b)[y'][x'] ==
      if y' == y && x' == x then b.tl
      else if y' == y && x' == Next(x, w) then b.tr
      else if y' == Next(y, h) && x' == x then b.bl
      else if y' == Next(y, h) && x' == Next(x, w) then b.br
      else g[y'][x']
  {
  }

  /** A block written at an in-range corner reads back as written. */
  lemma LocalReadWrite(g: seq<seq<nat>>, w: nat, h: nat, x: nat, y: nat, b: Block)
    requires Dims(w, h) && IsGrid(g, w, h) && x < w && y < h
    ensures LocalBlock(LocalWrite(g, w, h, x, y, b), w, h, x, y) == b
  {
  }

  /** A block's four cells are distinct, so reading a block back after
      writing it gives what was written. */
  lemma ReadWriteBlock(g: seq<seq<nat>>, w: nat, h: nat, x: nat, y: nat, b: Block)
    requires Dims(w, h) && IsGrid(g, w, h)
    ensures ReadBlock(WriteBlock(g, w, h, x, y, b), w, h, x, y) == b
  {
    WriteBlockLocal(g, w, h, x, y, b);
    ReadBlockLocal(WriteBlock(g, w, h, x, y, b), w, h, x, y);
    LocalReadWrite(g, w, h, Normalize(x, w), Normalize(y, h), b);
  }

  /** `set_block` followed by `get_block` at the same corner returns the
      block code that was written, for every code of the alphabet. */
  lemma SetThenGetBlock(n: Radix, g: seq<seq<nat>>, w: nat, h: nat, x: nat, y: nat, v: nat)
    requires Dims(w, h) && IsGrid(g, w, h) && v < BlockCount(n)
    ensures ToBlockInt(n, ReadBlock(WriteBlock(g, w, h, x, y, FromBlockInt(n, v)), w, h, x, y)) == v
  {
    ReadWriteBlock(g, w, h, x, y, FromBlockInt(n, v));
    DecodeRoundTrip(n, v);
  }

  /** A block read from a grid of in-alphabet cells is in the alphabet. */
  lemma ReadBlockInAlphabet(n: Radix, g: seq<seq<nat>>, w: nat, h: nat, x: nat, y: nat)
    requires w > 0 && h > 0 && IsGrid(g, w, h) && AllBelow(g, n)
    ensures InAlphabet(n, ReadBlock(g, w, h, x, y))
  {
  }
}
