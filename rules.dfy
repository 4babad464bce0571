/** Rule sets of the reversible block automaton (src/rules.rs): the
    mixed-radix code of a 2x2 block, the permutation inverter behind the
    `invert!` macro, the two rule-set constructors and the special states a
    rule set declares.  The two concrete rule sets of the source differ only
    in their alphabet size, so one `RuleSet` carries that size as data. */
module Rules {
  import opened Arith

  datatype Option<+T> = None | Some(value: T)

  /** Alphabet sizes of the two concrete rule sets (two and three states). */
  type Radix = n: nat | n == 2 || n == 3 witness 2

  /** The four cells of a 2x2 block, in the order the code reads them:
      top-left, top-right, bottom-left, bottom-right. */
  datatype Block = Block(tl: nat, tr: nat, bl: nat, br: nat)

  /** Number of distinct blocks over an alphabet of `n` states: the table
      sizes 16 and 81 of the two rule sets. */
  function BlockCount(n: Radix): nat {
    if n == 2 then 16 else 81
  }

  predicate InAlphabet(n: Radix, b: Block) {
    b.tl < n && b.tr < n && b.bl < n && b.br < n
  }

  // ---------------------------------------------------------------------
  // Block codec

  /** `to_block_int`: the block read as a four-digit number in base `n`,
      top-left cell most significant. */
  function ToBlockInt(n: Radix, b: Block): (r: nat)
    ensures InAlphabet(n, b) ==> r < BlockCount(n)
  {
    if n == 2 then b.tl * 8 + b.tr * 4 + b.bl * 2 + b.br
    else b.tl * 27 + b.tr * 9 + b.bl * 3 + b.br
  }

  /** `from_block_int`: the four base-`n` digits of a block code. */
  function FromBlockInt(n: Radix, i: nat): (b: Block)
    ensures i < BlockCount(n) ==> InAlphabet(n, b)
  {
    if n == 2 then Block(i / 8, (i / 4) % 2, (i / 2) % 2, i % 2)
    else Block(i / 27, (i / 9) % 3, (i / 3) % 3, i % 3)
  }

  lemma Base2Digits(a: nat, b: nat, c: nat, d: nat)
    requires a < 2 && b < 2 && c < 2 && d < 2
    ensures var i := a * 8 + b * 4 + c * 2 + d;
      i < 16 && i / 8 == a && (i / 4) % 2 == b && (i / 2) % 2 == c && i % 2 == d
  {
  }

  lemma Base3Digits(a: nat, b: nat, c: nat, d: nat)
    requires a < 3 && b < 3 && c < 3 && d < 3
    ensures var i := a * 27 + b * 9 + c * 3 + d;
      i < 81 && i / 27 == a && (i / 9) % 3 == b && (i / 3) % 3 == c && i % 3 == d
  {
    var i := a * 27 + b * 9 + c * 3 + d;
    DivModUnique(i, 27, a, b * 9 + c * 3 + d);
    DivModUnique(i, 9, a * 3 + b, c * 3 + d);
    DivModUnique(a * 3 + b, 3, a, b);
    DivModUnique(i, 3, a * 9 + b * 3 + c, d);
    DivModUnique(a * 9 + b * 3 + c, 3, a * 3 + b, c);
  }

  lemma Base2Number(i: nat)
    requires i < 16
    ensures i / 8 < 2 && (i / 8) * 8 + ((i / 4) % 2) * 4 + ((i / 2) % 2) * 2 + i % 2 == i
  {
  }

  lemma Base3Number(i: nat)
    requires i < 81
    ensures i / 27 < 3 && (i / 27) * 27 + ((i / 9) % 3) * 9 + ((i / 3) % 3) * 3 + i % 3 == i
  {
  }

  /** Encoding a block of in-alphabet cells gives a code below `n^4` that
      decodes to the same block. */
  lemma EncodeRoundTrip(n: Radix, b: Block)
    requires InAlphabet(n, b)
    ensures ToBlockInt(n, b) < BlockCount(n)
    ensures FromBlockInt(n, ToBlockInt(n, b)) == b
  {
    if n == 2 {
      Base2Digits(b.tl, b.tr, b.bl, b.br);
    } else {
      Base3Digits(b.tl, b.tr, b.bl, b.br);
    }
  }

  /** Every code below `n^4` decodes to in-alphabet cells that encode back
      to the same code. */
  lemma DecodeRoundTrip(n: Radix, i: nat)
    requires i < BlockCount(n)
    ensures InAlphabet(n, FromBlockInt(n, i))
    ensures ToBlockInt(n, FromBlockInt(n, i)) == i
  {
    if n == 2 {
      Base2Number(i);
    } else {
      Base3Number(i);
    }
  }

  // ---------------------------------------------------------------------
  // Permutations and the `invert!` macro

  /** No value occurs twice in `s`. */
  predicate Distinct(s: seq<nat>) {
    forall i, j :: 0 <= i < j < |s| ==> s[i] != s[j]
  }

  /** The table is a bijection on `[0, |p|)`: every entry is in range and no
      entry repeats. */
  predicate IsPermutation(p: seq<nat>) {
    (forall i :: 0 <= i < |p| ==> p[i] < |p|) && Distinct(p)
  }

  /** Table `u` undoes table `t`: looking up the entry of `t` at `i` in `u`
      gives back `i`. */
  predicate Undoes(u: seq<nat>, t: seq<nat>) {
    forall i :: 0 <= i < |t| ==> t[i] < |u| && u[t[i]] == i
  }

  /** `q` undoes `p` and `p` undoes `q`, both tables being over `[0, |p|)`. */
  predicate IsInverse(p: seq<nat>, q: seq<nat>) {
    |q| == |p| && Undoes(q, p) && Undoes(p, q)
  }

  /** `iter().position(|&y| y == x)`: the first index holding `x`. */
  function Position(p: seq<nat>, x: nat): (r: Option<nat>)
    ensures r.Some? <==> x in p
    ensures r.Some? ==> r.value < |p| && p[r.value] == x && x !in p[..r.value]
  {
    if |p| == 0 then None
    else if p[0] == x then Some(0)
    else match Position(p[1..], x)
      case None => None
      case Some(i) =>
        assert p[1..][..i] == p[1..i + 1];
        assert p[..i + 1] == [p[0]] + p[1..i + 1];
        Some(i + 1)
  }

  /** The positions of the values `0 .. m - 1` collected into one sequence;
      `None` as soon as one of them does not occur in `p`. */
  function Positions(p: seq<nat>, m: nat): (r: Option<seq<nat>>)
    ensures r.Some? <==> forall x :: 0 <= x < m ==> x in p
    ensures r.Some? ==> |r.value| == m
    ensures r.Some? ==> forall x :: 0 <= x < m ==>
      r.value[x] < |p| && p[r.value[x]] == x && x !in p[..r.value[x]]
  {
    if m == 0 then Some([])
    else match Positions(p, m - 1)
      case None => None
      case Some(prefix) =>
        match Position(p, m - 1)
        case None => None
        case Some(i) => Some(prefix + [i])
  }

  /** The `invert!` macro: the table of positions of `0 .. |p| - 1`, or
      `None` when some value in that range is missing from `p`.  (The
      macro's size literal is the array length, so it is `|p|` here.) */
  function Invert(p: seq<nat>): (r: Option<seq<nat>>)
    ensures r.Some? ==> |r.value| == |p|
    ensures r.Some? ==> forall j :: 0 <= j < |p| ==> r.value[j] < |p| && p[r.value[j]] == j
  {
    Positions(p, |p|)
  }

  function ValueSet(s: seq<nat>): set<nat> {
    set x | x in s
  }

  /** The values `0 .. m - 1`. */
  function Below(m: nat): set<nat> {
    if m == 0 then {} else Below(m - 1) + {m - 1}
  }

  lemma {:induction false} BelowSize(m: nat)
    ensures |Below(m)| == m
    ensures forall x: nat :: x in Below(m) <==> x < m
  {
    if m > 0 {
      BelowSize(m - 1);
      assert Below(m) == Below(m - 1) + {m - 1};
    }
  }

  /** A sequence has at most `|s|` distinct values, and exactly `|s|` of
      them when no value repeats. */
  lemma {:induction false} ValueSetSize(s: seq<nat>)
    ensures |ValueSet(s)| <= |s|
    ensures |ValueSet(s)| == |s| <==> Distinct(s)
  {
    if s != [] {
      ValueSetSize(s[1..]);
      assert ValueSet(s) == {s[0]} + ValueSet(s[1..]);
      if s[0] in s[1..] {
        assert !Distinct(s) by {
          var j :| 0 <= j < |s[1..]| && s[1..][j] == s[0];
          assert s[0] == s[j + 1];
        }
      } else {
        assert Distinct(s) <==> Distinct(s[1..]) by {
          if Distinct(s[1..]) {
            forall i, j | 0 <= i < j < |s| ensures s[i] != s[j] {
              if i > 0 {
                assert s[i] == s[1..][i - 1] && s[j] == s[1..][j - 1];
              } else {
                assert s[j] == s[1..][j - 1];
              }
            }
          }
          if Distinct(s) {
            forall i, j | 0 <= i < j < |s[1..]| ensures s[1..][i] != s[1..][j] {
              assert s[1..][i] == s[i + 1] && s[1..][j] == s[j + 1];
            }
          }
        }
      }
    }
  }

  lemma SubsetSize(a: set<nat>, b: set<nat>)
    requires a <= b
    ensures |a| <= |b|
    ensures |a| == |b| ==> a == b
  {
    assert b == a + (b - a);
  }

  /** `invert!` succeeds exactly on the permutations: checking that every
      value below `|p|` occurs also excludes repeated and out-of-range
      entries, because there are only `|p|` entries. */
  lemma InvertSucceedsIffPermutation(p: seq<nat>)
    ensures Invert(p).Some? <==> IsPermutation(p)
  {
    var m := |p|;
    BelowSize(m);
    ValueSetSize(p);
    if Invert(p).Some? {
      assert Below(m) <= ValueSet(p);
      SubsetSize(Below(m), ValueSet(p));
      forall i | 0 <= i < m ensures p[i] < m {
        assert p[i] in ValueSet(p);
      }
    } else {
      if IsPermutation(p) {
        assert ValueSet(p) <= Below(m);
        SubsetSize(ValueSet(p), Below(m));
        assert Distinct(p);
        forall x | 0 <= x < m ensures x in p {
          assert x in Below(m);
        }
        assert false;
      }
    }
  }

  /** On success the result of `invert!` undoes the table on both sides. */
  lemma InvertIsInverse(p: seq<nat>)
    requires Invert(p).Some?
    ensures IsInverse(p, Invert(p).value)
  {
    InvertSucceedsIffPermutation(p);
    var q := Invert(p).value;
    forall i | 0 <= i < |p| ensures p[i] < |p| && q[p[i]] == i {
    }
  }

  // ---------------------------------------------------------------------
  // Rule sets

  /** A rule set: its alphabet size, the tables of the two phases and the
      inverse tables computed by `invert!` at construction. */
  datatype RuleSet = RuleSet(
    n: Radix,
    step1: seq<nat>,
    step2: seq<nat>,
    step1Invert: seq<nat>,
    step2Invert: seq<nat>)
  {
    /** What every successfully constructed rule set satisfies. */
    predicate Valid() {
      && |step1| == BlockCount(n)
      && |step2| == BlockCount(n)
      && IsInverse(step1, step1Invert)
      && IsInverse(step2, step2Invert)
    }
  }

  /** `from_one_step`: the one table serves both phases, and its inverse both
      inverse slots; `None` exactly when the table is not a permutation. */
  function FromOneStep(n: Radix, step: seq<nat>): (r: Option<RuleSet>)
    requires |step| == BlockCount(n)
    ensures r.Some? <==> IsPermutation(step)
    ensures r.Some? ==> r.value.Valid() && r.value.n == n
    ensures r.Some? ==> r.value.step1 == step && r.value.step2 == step
    ensures r.Some? ==> r.value.step1Invert == r.value.step2Invert
  {
    InvertSucceedsIffPermutation(step);
    match Invert(step)
    case None => None
    case Some(inv) =>
      InvertIsInverse(step);
      Some(RuleSet(n, step, step, inv, inv))
  }

  /** `from_two_steps`: `None` when either table fails to invert; otherwise
      each table is stored with its own inverse. */
  function FromTwoSteps(n: Radix, step1: seq<nat>, step2: seq<nat>): (r: Option<RuleSet>)
    requires |step1| == BlockCount(n) && |step2| == BlockCount(n)
    ensures r.Some? <==> IsPermutation(step1) && IsPermutation(step2)
    ensures r.Some? ==> r.value.Valid() && r.value.n == n
    ensures r.Some? ==> r.value.step1 == step1 && r.value.step2 == step2
  {
    InvertSucceedsIffPermutation(step1);
    InvertSucceedsIffPermutation(step2);
    match Invert(step1)
    case None => None
    case Some(inv1) =>
      match Invert(step2)
      case None => None
      case Some(inv2) =>
        InvertIsInverse(step1);
        InvertIsInverse(step2);
        Some(RuleSet(n, step1, step2, inv1, inv2))
  }

  // ---------------------------------------------------------------------
  // Special states

  /** `normalize_state`: a state of another rule set mapped into this
      alphabet; states above the largest one become state 1. */
  function NormalizeState(n: Radix, state: nat): (r: nat)
    ensures r < n
    ensures state < n ==> r == state
    ensures state >= n ==> r == 1
  {
    if state > n - 1 then 1 else state
  }

  /** Normalising twice is normalising once: the result is already a
      state of the alphabet. */
  lemma NormalizeStateIdempotent(n: Radix, state: nat)
    ensures NormalizeState(n, NormalizeState(n, state)) == NormalizeState(n, state)
  {
  }

  /** The state a cleared cell holds. */
  function DefaultState(n: Radix): (s: nat)
    ensures s < n && NormalizeState(n, s) == s
  {
    0
  }

  /** The state painted by the primary mouse button. */
  function Mouse1(n: Radix): (s: nat)
    ensures 0 < s < n
  {
    1
  }

  /** The state painted by the secondary mouse button: the third state of
      a three-state rule set, the empty state otherwise. */
  function Mouse2(n: Radix): (s: nat)
    ensures s < n && (n == 3 <==> s == 2)
    ensures n == 2 ==> s == DefaultState(n)
  {
    if n == 2 then 0 else 2
  }

  /** The state painted by the third mouse button: the empty state. */
  function Mouse3(n: Radix): (s: nat)
    ensures s < n && s == DefaultState(n)
  {
    0
  }
}
