/** The concrete Critters engine of src/world.rs: Boolean cells in a flat
    row-major vector, the fixed Critters block table and its inverse, and a
    step offset that alternates between the two Margolus partitions. */
module CrittersWorld {
  import opened Arith
  import opened Rules
  import opened Torus
  import opened Margolus

  /** `CRITTERS_ARRAY`: the Critters rule as a table over the 16 codes of a
      two-state block. */
  const CrittersArray: seq<nat> := [15, 14, 13, 3, 11, 5, 6, 1, 7, 9, 10, 2, 12, 4, 8, 0]

  /** `CRITTERS_ARRAY_INVERT`, which the source computes on first use as the
      position of each code in `CRITTERS_ARRAY`. */
  const CrittersArrayInvert: seq<nat> := [15, 7, 11, 3, 13, 5, 6, 8, 14, 9, 10, 4, 12, 2, 1, 0]

  /** A permutation has exactly one inverse. */
  lemma InverseUnique(p: seq<nat>, q1: seq<nat>, q2: seq<nat>)
    requires IsInverse(p, q1) && IsInverse(p, q2)
    ensures q1 == q2
  {
    forall j | 0 <= j < |q1| ensures q1[j] == q2[j] {
      assert p[q1[j]] == j == p[q2[j]];
      assert q1[p[q1[j]]] == q1[j] && q1[p[q2[j]]] == q2[j];
    }
  }

  /** `CRITTERS_ARRAY_INVERT` undoes `CRITTERS_ARRAY`.  The loop walks the
      16 codes in order so that each step looks the constant tables up at
      one more index; asked for all 16 at once the solver's cost varies
      tenfold from run to run. */
  lemma InvertUndoesCritters()
    ensures Undoes(CrittersArrayInvert, CrittersArray)
  {
    for k := 0 to 16
      invariant forall i :: 0 <= i < k ==> CrittersArray[i] < 16 && CrittersArrayInvert[CrittersArray[i]] == i
    {
    }
  }

  /** `CRITTERS_ARRAY` undoes `CRITTERS_ARRAY_INVERT`, walked as above. */
  lemma CrittersUndoesInvert()
    ensures Undoes(CrittersArray, CrittersArrayInvert)
  {
    for k := 0 to 16
      invariant forall i :: 0 <= i < k ==> CrittersArrayInvert[i] < 16 && CrittersArray[CrittersArrayInvert[i]] == i
    {
    }
  }

  /** `CRITTERS_ARRAY` is a permutation of the 16 block codes, so the
      `unwrap` that computes its inverse never panics, and the inverse is
      `CRITTERS_ARRAY_INVERT`. */
  lemma CrittersTables()
    ensures IsPermutation(CrittersArray) && |CrittersArray| == BlockCount(2)
    ensures Invert(CrittersArray) == Some(CrittersArrayInvert)
    ensures IsInverse(CrittersArray, CrittersArrayInvert)
    ensures TableInRange(2, CrittersArray) && TableInRange(2, CrittersArrayInvert)
  {
    var p, q := CrittersArray, CrittersArrayInvert;
    InvertUndoesCritters();
    CrittersUndoesInvert();
    assert IsPermutation(p) by {
      forall i, j | 0 <= i < j < |p| ensures p[i] != p[j] {
        assert q[p[i]] == i && q[p[j]] == j;
      }
    }
    InvertSucceedsIffPermutation(p);
    InvertIsInverse(p);
    InverseUnique(p, Invert(p).value, q);
  }

  // ---------------------------------------------------------------------
  // The grid as the specification sees it

  /** `b as u8`: the state number of a Boolean cell. */
  function Bit(b: bool): (r: nat)
    ensures r < 2 && (r == 1 <==> b)
  {
    if b then 1 else 0
  }

  /** The state numbers of a vector of Boolean cells. */
  function Bits(a: seq<bool>): (r: seq<nat>)
    ensures |r| == |a| && forall k :: 0 <= k < |a| ==> r[k] == Bit(a[k])
  {
    seq(|a|, k requires 0 <= k < |a| => Bit(a[k]))
  }

  /** Every Boolean cell is a state of the two-state alphabet. */
  lemma BitsInAlphabet(a: seq<bool>, w: nat, h: nat)
    requires |a| == w * h
    ensures AllBelow(Grid(Bits(a), w, h), 2)
  {
    var g := Grid(Bits(a), w, h);
    forall y, x | 0 <= y < h && 0 <= x < w ensures g[y][x] < 2 {
      FlatRead(Bits(a), w, h, x, y);
    }
  }

  /** The four bit tests of `set_block`: `val & 0b1000 != 0` and so on, as
      cell states. */
  function LowBits(v: nat): Block {
    Block((v / 8) % 2, (v / 4) % 2, (v / 2) % 2, v % 2)
  }

  /** The bit tests always give two-state cells, and for a block code
      they decode it. */
  lemma LowBitsDecode(v: nat)
    ensures InAlphabet(2, LowBits(v))
    ensures v < 16 ==> LowBits(v) == FromBlockInt(2, v)
  {
  }

  /** A world as a value: its cells, dimensions and step offset. */
  datatype State = State(cells: seq<seq<nat>>, width: nat, height: nat, stepOffset: bool)
  {
    predicate Valid() {
      Dims(width, height) && IsGrid(cells, width, height) && AllBelow(cells, 2)
    }
  }

  /** `step`: the phase at the current offset with `CRITTERS_ARRAY`, then
      the offset flips. */
  function StepSpec(s: State): (r: State)
    requires s.Valid()
    ensures r.Valid() && r.width == s.width && r.height == s.height && r.stepOffset == !s.stepOffset
  {
    CrittersTables();
    var g := s.cells;
    ApplyPhaseInAlphabet(g, s.width, s.height, Bit(s.stepOffset), 2, CrittersArray);
    State(ApplyPhase(g, s.width, s.height, Bit(s.stepOffset), 2, CrittersArray), s.width, s.height, !s.stepOffset)
  }

  /** `step_back`: the phase at the negated offset with
      `CRITTERS_ARRAY_INVERT`, then the offset flips. */
  function StepBackSpec(s: State): (r: State)
    requires s.Valid()
    ensures r.Valid() && r.width == s.width && r.height == s.height && r.stepOffset == !s.stepOffset
  {
    CrittersTables();
    var g := s.cells;
    ApplyPhaseInAlphabet(g, s.width, s.height, Bit(!s.stepOffset), 2, CrittersArrayInvert);
    State(ApplyPhase(g, s.width, s.height, Bit(!s.stepOffset), 2, CrittersArrayInvert), s.width, s.height, !s.stepOffset)
  }

  /** `step` followed by `step_back` restores the cells and the offset:
      `step_back` uses the offset `step` used, and the inverse table. */
  lemma StepThenBack(s: State)
    requires s.Valid()
    ensures StepBackSpec(StepSpec(s)) == s
  {
    CrittersTables();
    PhaseRoundTrip(s.cells, s.width, s.height, Bit(s.stepOffset), 2, CrittersArray, CrittersArrayInvert);
  }

  /** `step_back` followed by `step` restores the cells and the offset. */
  lemma BackThenStep(s: State)
    requires s.Valid()
    ensures StepSpec(StepBackSpec(s)) == s
  {
    CrittersTables();
    PhaseRoundTrip(s.cells, s.width, s.height, Bit(!s.stepOffset), 2, CrittersArrayInvert, CrittersArray);
  }

  /** `k` calls of `step`. */
  function Steps(s: State, k: nat): (r: State)
    requires s.Valid()
    ensures r.Valid() && r.width == s.width && r.height == s.height
  {
    if k == 0 then s else StepSpec(Steps(s, k - 1))
  }

  /** `k` calls of `step_back`. */
  function BackSteps(s: State, k: nat): (r: State)
    requires s.Valid()
    ensures r.Valid() && r.width == s.width && r.height == s.height
    decreases k
  {
    if k == 0 then s else BackSteps(StepBackSpec(s), k - 1)
  }

  /** `k` steps undone by `k` back-steps give the original world. */
  lemma {:induction false} BackStepsUndoSteps(s: State, k: nat)
    requires s.Valid()
    ensures BackSteps(Steps(s, k), k) == s
  {
    if k > 0 {
      StepThenBack(Steps(s, k - 1));
      BackStepsUndoSteps(s, k - 1);
    }
  }

  // ---------------------------------------------------------------------
  // The engine

  class World {
    var arr: array<bool>
    var width: nat
    var height: nat
    var stepOffset: bool

    /** The dimensions are twice positive half-dimensions and the vector
        holds one cell per position. */
    ghost predicate Valid()
      reads this
    {
      Dims(width, height) && arr.Length == width * height
    }

    /** The cells as a grid of state numbers. */
    ghost function Cells(): (g: seq<seq<nat>>)
      reads this, arr
      requires Valid()
      ensures IsGrid(g, width, height) && AllBelow(g, 2)
    {
      BitsInAlphabet(arr[..], width, height);
      Grid(Bits(arr[..]), width, height)
    }

    /** The world as a value. */
    ghost function Snapshot(): (s: State)
      reads this, arr
      requires Valid()
      ensures s.Valid()
    {
      State(Cells(), width, height, stepOffset)
    }

    /** `new`: a `2 * halfwidth` by `2 * halfheight` world of dead cells. */
    constructor (halfwidth: nat, halfheight: nat, stepOffset: bool)
      requires halfwidth >= 1 && halfheight >= 1
      ensures Valid() && fresh(arr)
      ensures width == 2 * halfwidth && height == 2 * halfheight && this.stepOffset == stepOffset
      ensures Cells() == Filled(width, height, 0)
    {
      arr := new bool[halfwidth * halfheight * 2 * 2](_ => false);
      width := halfwidth * 2;
      height := halfheight * 2;
      this.stepOffset := stepOffset;
      new;
      FlatFilled(Bits(arr[..]), width, height, 0);
    }

    /** `get`: the cell at the wrapped coordinates. */
    method Get(x: nat, y: nat) returns (v: bool)
      requires Valid()
      ensures Bit(v) == At(Cells(), width, height, x, y)
    {
      var nx := Normalize(x, width);
      var ny := Normalize(y, height);
      FlatRead(Bits(arr[..]), width, height, nx, ny);
      v := arr[nx + ny * width];
    }

    /** `set`: the cell at the wrapped coordinates becomes `v`. */
    method Set(x: nat, y: nat, v: bool)
      requires Valid()
      modifies arr
      ensures Valid()
      ensures Cells() == Update(old(Cells()), width, height, x, y, Bit(v))
    {
      var nx := Normalize(x, width);
      var ny := Normalize(y, height);
      FlatRead(Bits(arr[..]), width, height, nx, ny);
      var k := nx + ny * width;
      ghost var before := arr[..];
      arr[k] := v;
      assert Bits(arr[..]) == Bits(before)[k := Bit(v)];
      FlatWrite(Bits(before), width, height, nx, ny, Bit(v));
    }

    /** `get_block`: the code of the block at `(x, y)`, its four cells read
        as the bits 3, 2, 1 and 0. */
    method GetBlock(x: nat, y: nat) returns (code: nat)
      requires Valid()
      ensures code < BlockCount(2)
      ensures code == ToBlockInt(2, ReadBlock(Cells(), width, height, x, y))
    {
      var a := Get(x, y);
      var b := Get(x + 1, y);
      var c := Get(x, y + 1);
      var d := Get(x + 1, y + 1);
      code := Bit(a) * 8 + Bit(b) * 4 + Bit(c) * 2 + Bit(d);
    }

    /** `set_block`: the four cells of the block at `(x, y)` become the bits
        3, 2, 1 and 0 of `v`, in that order. */
    method SetBlock(x: nat, y: nat, v: nat)
      requires Valid()
      modifies arr
      ensures Valid()
      ensures Cells() == WriteBlock(old(Cells()), width, height, x, y, LowBits(v))
    {
      Set(x, y, (v / 8) % 2 == 1);
      Set(x + 1, y, (v / 4) % 2 == 1);
      Set(x, y + 1, (v / 2) % 2 == 1);
      Set(x + 1, y + 1, v % 2 == 1);
    }

    /** The body of the block loops: the block `(i, j)` of the partition
        with origin `o` is read and replaced by the entry of `t` at its
        code. */
    method SweepStep(o: nat, t: seq<nat>, ghost g: seq<seq<nat>>, i: nat, j: nat)
      requires Valid() && PhaseArgs(g, width, height, o, 2, t) && TableInRange(2, t)
      requires i < width / 2 && j < height / 2 && SweptUpTo(Cells(), g, width, height, o, 2, t, i, j)
      modifies arr
      ensures Valid() && SweptUpTo(Cells(), g, width, height, o, 2, t, i, j + 1)
    {
      var x, y := i * 2 + o, j * 2 + o;
      assert x == Start(i, o) && y == Start(j, o);
      ghost var before := Cells();
      SweepBlock(before, g, width, height, o, 2, t, i, j);
      ReadBlockLocal(before, width, height, x, y);
      var current := GetBlock(x, y);
      assert current == ToBlockInt(2, LocalBlock(g, width, height, x, y));
      var next := t[current];
      SetBlock(x, y, next);
      LowBitsDecode(next);
      WriteBlockLocal(before, width, height, x, y, LowBits(next));
      assert LowBits(next) == NewBlock(g, width, height, o, 2, t, x, y);
      assert Cells() == LocalWrite(before, width, height, x, y, NewBlock(g, width, height, o, 2, t, x, y));
    }

    /** The two loops over the blocks of the partition with origin `o`:
        each block is replaced by the entry of `t` at its code. */
    method Sweep(o: nat, t: seq<nat>)
      requires Valid() && o <= 1 && |t| == BlockCount(2) && TableInRange(2, t)
      modifies arr
      ensures Valid()
      ensures Cells() == ApplyPhase(old(Cells()), width, height, o, 2, t)
    {
      ghost var g := Cells();
      SweepStart(g, width, height, o, 2, t);
      var i := 0;
      while i < width / 2
        invariant 0 <= i <= width / 2
        invariant Valid()
        invariant SweptUpTo(Cells(), g, width, height, o, 2, t, i, 0)
      {
        var j := 0;
        while j < height / 2
          invariant 0 <= j <= height / 2
          invariant Valid()
          invariant SweptUpTo(Cells(), g, width, height, o, 2, t, i, j)
        {
          SweepStep(o, t, g, i, j);
          j := j + 1;
        }
        SweepNextColumn(Cells(), g, width, height, o, 2, t, i);
        i := i + 1;
      }
      SweepDone(Cells(), g, width, height, o, 2, t);
    }

    /** `step`: one phase of the Critters rule at the current offset, after
        which the offset flips. */
    method Step()
      requires Valid()
      modifies this, arr
      ensures Valid() && arr == old(arr)
      ensures Snapshot() == StepSpec(old(Snapshot()))
    {
      CrittersTables();
      var offset := Bit(stepOffset);
      Sweep(offset, CrittersArray);
      stepOffset := !stepOffset;
    }

    /** `step_back`: one phase of the inverse rule at the negated offset,
        after which the offset flips. */
    method StepBack()
      requires Valid()
      modifies this, arr
      ensures Valid() && arr == old(arr)
      ensures Snapshot() == StepBackSpec(old(Snapshot()))
    {
      CrittersTables();
      var offset := Bit(!stepOffset);
      Sweep(offset, CrittersArrayInvert);
      stepOffset := !stepOffset;
    }
  }
}
