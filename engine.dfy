/** The simulation engine of src/automata/types.rs: a `Simulation` holds an
    automaton and its space, a dense buffer of u8 cells indexed [t, x] (1-D)
    or [t, x, y] (2-D) whose first axis is time. Each step reads plane t and
    writes plane t + 1. */
module Engine {
  import opened Rules

  /** `Automata`: dimension, neighbour radius and the rule table. */
  datatype Automata = Automata(dimension: nat, neighbors: nat, rules: seq<U8>)

  // ---------------------------------------------------------------------------
  // The flat buffer
  // ---------------------------------------------------------------------------

  /** Cells per time step: shape[1] for a 1-D space [t, x], shape[1] * shape[2]
      for a 2-D space [t, x, y]. Plane t occupies t * P .. t * P + P - 1 of the
      row-major buffer. */
  function PlaneSize(shape: seq<nat>): nat
    requires |shape| == 2 || |shape| == 3
  {
    if |shape| == 2 then shape[1] else shape[1] * shape[2]
  }

  /** Planes are laid out in time order and do not overlap. */
  lemma PlaneOrder(s: nat, t: nat, p: nat)
    requires s < t
    ensures s * p + p <= t * p
  {
    var d := t - s;
    assert t * p == s * p + d * p;
    assert d * p == p + (d - 1) * p;
  }

  /** Plane t + 1 starts right after plane t. */
  lemma PlaneNext(t: nat, p: nat)
    ensures (t + 1) * p == t * p + p && 0 <= t * p
  {
  }

  /** Cell (x, y) of an X-by-Y plane lies inside the plane. */
  lemma RowMajorBound(x: nat, y: nat, xs: nat, ys: nat)
    requires x < xs && y < ys
    ensures 0 <= x * ys + y < xs * ys
  {
    PlaneOrder(x, xs, ys);
  }

  /** Row-major offsets decompose back into their coordinates. */
  lemma RowMajorDecompose(x: nat, y: nat, ys: nat)
    requires y < ys
    ensures (x * ys + y) / ys == x && (x * ys + y) % ys == y
  {
    var q := x * ys + y;
    var a, b := q / ys, q % ys;
    assert q == a * ys + b;
    if a < x {
      PlaneOrder(a, x, ys);
    } else if a > x {
      PlaneOrder(x, a, ys);
    }
  }

  /** Reading the buffer: positions past its end read as 0. The methods below
      only read positions inside the buffer (the source would panic there). */
  function Cell(c: seq<U8>, p: int): U8 {
    if 0 <= p < |c| then c[p] else 0
  }

  /** Looking up the rule table: indices past its end read as 0. The methods
      below only look up indices inside the table (the source would panic). */
  function Lookup(rules: seq<U8>, k: nat): U8 {
    if k < |rules| then rules[k] else 0
  }

  /** c and d agree on plane t of size p. */
  predicate SamePlane(c: seq<U8>, d: seq<U8>, t: nat, p: nat) {
    |c| == |d| && forall k :: t * p <= k < t * p + p && k < |c| ==> c[k] == d[k]
  }

  // ---------------------------------------------------------------------------
  // 1-D neighbourhood index
  // ---------------------------------------------------------------------------

  /** v * 2^k, a cell value at bit weight k (`ShiftedIsProduct`), written as
      k doublings so that the index proofs stay in linear arithmetic. Unlike
      the u8 `Shl` of the rule-table key, it never wraps (`usize` in the
      source). */
  function Shifted(v: nat, k: nat): nat {
    if k == 0 then v else 2 * Shifted(v, k - 1)
  }

  lemma {:induction false} ShiftedIsProduct(v: nat, k: nat)
    ensures Shifted(v, k) == v * Pow2(k)
  {
    if k > 0 {
      ShiftedIsProduct(v, k - 1);
      assert v * Pow2(k) == 2 * (v * Pow2(k - 1));
    }
  }

  /** Cell i of plane t of a space whose planes hold `width` cells, as
      `space[[t, i]]` reads it. */
  function At2(c: seq<U8>, width: nat, t: nat, i: int): U8 {
    Cell(c, t * width + i)
  }

  /** What the first k rounds of `iterate_1d`'s inner loop add: round idx adds
      the left cell at weight 2^(nei + idx - 1) and the right cell at weight
      2^(idx + 2). */
  function Weights1(l: nat, r: nat, nei: nat, k: nat): nat
    requires k <= nei
  {
    if k == 0 then 0 else Weights1(l, r, nei, k - 1) + Shifted(l, nei + k - 2) + Shifted(r, k + 1)
  }

  /** The rule-table index of a cell with value c, left neighbour l and right
      neighbour r under radius nei. */
  function Index1(l: nat, c: nat, r: nat, nei: nat): nat {
    Shifted(c, nei) + Weights1(l, r, nei, nei)
  }

  /** The index of cell i of plane t: the plane holds `width` cells, of which
      the step visits the first d, wrapping its neighbours modulo d. */
  function Index1At(c: seq<U8>, width: nat, d: nat, t: nat, i: nat, nei: nat): nat
    requires d > 0
  {
    Index1(At2(c, width, t, (i + d - 1) % d), At2(c, width, t, i), At2(c, width, t, (i + d + 1) % d), nei)
  }

  /** Every index step t would compute lies inside the rule table. */
  predicate Lookups1InRange(c: seq<U8>, shape: seq<nat>, t: nat, a: Automata)
    requires |shape| == 2
  {
    forall i :: 0 <= i < shape[0] ==> Index1At(c, shape[1], shape[0], t, i, a.neighbors) < |a.rules|
  }

  /** Cell k of the buffer after one 1-D step from plane t: cell i of plane
      t + 1, for i below shape[0], becomes the rule-table entry of its
      neighbourhood in plane t; every other cell keeps its value. */
  function Next1(c: seq<U8>, shape: seq<nat>, t: nat, a: Automata, k: nat): U8
    requires |shape| == 2 && k < |c|
  {
    var d := shape[0];
    var next: int := t * shape[1] + shape[1];
    if next <= k < next + d then Lookup(a.rules, Index1At(c, shape[1], d, t, k - next, a.neighbors))
    else c[k]
  }

  /** One 1-D step from plane t. */
  function Step1(c: seq<U8>, shape: seq<nat>, t: nat, a: Automata): (c': seq<U8>)
    requires |shape| == 2
    ensures |c'| == |c|
  {
    seq(|c|, k requires 0 <= k < |c| => Next1(c, shape, t, a, k))
  }

  /** Cell i of plane t + 1 after the step, at offset pos. */
  lemma Step1At(c: seq<U8>, shape: seq<nat>, t: nat, a: Automata, i: nat, pos: nat)
    requires |shape| == 2 && i < shape[0] && pos < |c|
    requires pos == t * shape[1] + shape[1] + i
    ensures Step1(c, shape, t, a)[pos] == Lookup(a.rules, Index1At(c, shape[1], shape[0], t, i, a.neighbors))
  {
  }

  /** The index of a cell depends only on the plane it is read from. */
  lemma Index1AtLocal(c: seq<U8>, c': seq<U8>, width: nat, d: nat, t: nat, i: nat, nei: nat)
    requires 0 < d <= width && i < d && SamePlane(c, c', t, width)
    ensures Index1At(c, width, d, t, i, nei) == Index1At(c', width, d, t, i, nei)
  {
  }

  // ---------------------------------------------------------------------------
  // 2-D neighbourhood index
  // ---------------------------------------------------------------------------

  /** Cell (x, y) of plane t of an xs-by-ys space, as `space[[t, x, y]]`
      reads it. */
  function At3(c: seq<U8>, xs: nat, ys: nat, t: nat, x: int, y: int): U8 {
    Cell(c, t * (xs * ys) + x * ys + y)
  }

  /** A cell of plane t depends only on that plane. */
  lemma At3Local(c: seq<U8>, c': seq<U8>, xs: nat, ys: nat, t: nat, x: int, y: int)
    requires 0 <= x < xs && 0 <= y < ys && SamePlane(c, c', t, xs * ys)
    ensures At3(c, xs, ys, t, x, y) == At3(c', xs, ys, t, x, y)
  {
    RowMajorBound(x, y, xs, ys);
    var k := t * (xs * ys) + x * ys + y;
    assert t * (xs * ys) <= k < t * (xs * ys) + xs * ys;
  }

  /** The 3 x 3 window around (x, y) in plane t, wrapping on both axes, in the
      order of `iterate_2d`: top-left, top-middle, top-right, centre-left,
      centre, centre-right, bottom-left, bottom-middle, bottom-right. */
  function Window2(c: seq<U8>, xs: nat, ys: nat, t: nat, x: int, y: int): (w: seq<U8>)
    requires xs > 0 && ys > 0
    ensures |w| == 9
  {
    var xl, xm, xr := (x + xs - 1) % xs, (x + xs) % xs, (x + xs + 1) % xs;
    var yu, ym, yd := (y + ys - 1) % ys, (y + ys) % ys, (y + ys + 1) % ys;
    [At3(c, xs, ys, t, xl, yu), At3(c, xs, ys, t, xm, yu), At3(c, xs, ys, t, xr, yu),
     At3(c, xs, ys, t, xl, ym), At3(c, xs, ys, t, xm, ym), At3(c, xs, ys, t, xr, ym),
     At3(c, xs, ys, t, xl, yd), At3(c, xs, ys, t, xm, yd), At3(c, xs, ys, t, xr, yd)]
  }

  /** Window entry j is shifted left by j. */
  function Index2(w: seq<U8>): nat
    requires |w| == 9
  {
    var w: seq<int> := w;
    w[0] + 2 * w[1] + 4 * w[2] + 8 * w[3] + 16 * w[4] + 32 * w[5] + 64 * w[6] + 128 * w[7] + 256 * w[8]
  }

  /** The window of a cell depends only on the plane it is read from. */
  lemma Window2Local(c: seq<U8>, c': seq<U8>, xs: nat, ys: nat, t: nat, x: int, y: int)
    requires xs > 0 && ys > 0 && SamePlane(c, c', t, xs * ys)
    ensures Window2(c, xs, ys, t, x, y) == Window2(c', xs, ys, t, x, y)
  {
    var xl, xm, xr := (x + xs - 1) % xs, (x + xs) % xs, (x + xs + 1) % xs;
    var yu, ym, yd := (y + ys - 1) % ys, (y + ys) % ys, (y + ys + 1) % ys;
    At3Local(c, c', xs, ys, t, xl, yu); At3Local(c, c', xs, ys, t, xm, yu); At3Local(c, c', xs, ys, t, xr, yu);
    At3Local(c, c', xs, ys, t, xl, ym); At3Local(c, c', xs, ys, t, xm, ym); At3Local(c, c', xs, ys, t, xr, ym);
    At3Local(c, c', xs, ys, t, xl, yd); At3Local(c, c', xs, ys, t, xm, yd); At3Local(c, c', xs, ys, t, xr, yd);
  }

  /** Every index step t would compute lies inside the rule table. */
  predicate Lookups2InRange(c: seq<U8>, shape: seq<nat>, t: nat, a: Automata)
    requires |shape| == 3
  {
    forall x, y :: 0 <= x < shape[1] && 0 <= y < shape[2] ==>
      Index2(Window2(c, shape[1], shape[2], t, x, y)) < |a.rules|
  }

  /** Cell k of the buffer after one 2-D step from plane t: cell (x, y) of
      plane t + 1 becomes the rule-table entry of its window in plane t; every
      other cell keeps its value. */
  function Next2(c: seq<U8>, shape: seq<nat>, t: nat, a: Automata, k: nat): U8
    requires |shape| == 3 && k < |c|
  {
    var xs, ys := shape[1], shape[2];
    var next: int := t * (xs * ys) + xs * ys;
    if xs > 0 && ys > 0 && next <= k < next + xs * ys
    then Lookup(a.rules, Index2(Window2(c, xs, ys, t, (k - next) / ys, (k - next) % ys)))
    else c[k]
  }

  /** Cell (x, y) of plane t + 1 after the step, at offset pos. */
  lemma Step2At(c: seq<U8>, shape: seq<nat>, t: nat, a: Automata, x: nat, y: nat, pos: nat)
    requires |shape| == 3 && x < shape[1] && y < shape[2] && pos < |c|
    requires pos == t * (shape[1] * shape[2]) + shape[1] * shape[2] + x * shape[2] + y
    ensures Step2(c, shape, t, a)[pos] == Lookup(a.rules, Index2(Window2(c, shape[1], shape[2], t, x, y)))
  {
    RowMajorBound(x, y, shape[1], shape[2]);
    RowMajorDecompose(x, y, shape[2]);
  }

  /** The first `done` cells of the plane starting at `next` hold their new
      values, and every other cell still holds its old one. */
  predicate Filled(c: seq<U8>, c0: seq<U8>, target: seq<U8>, next: nat, done: nat) {
    |c| == |c0| == |target| && next + done <= |c| &&
    (forall k :: 0 <= k < |c| && !(next <= k < next + done) ==> c[k] == c0[k]) &&
    (forall k :: next <= k < next + done ==> c[k] == target[k])
  }

  /** The writes of a step so far leave plane t as it was. */
  lemma UntouchedPlane(c: seq<U8>, c0: seq<U8>, target: seq<U8>, t: nat, p: nat, done: nat)
    requires Filled(c, c0, target, t * p + p, done)
    ensures SamePlane(c, c0, t, p)
  {
  }

  /** One 2-D step from plane t. */
  function Step2(c: seq<U8>, shape: seq<nat>, t: nat, a: Automata): (c': seq<U8>)
    requires |shape| == 3
    ensures |c'| == |c|
  {
    seq(|c|, k requires 0 <= k < |c| => Next2(c, shape, t, a, k))
  }

  // ---------------------------------------------------------------------------
  // Properties of the neighbourhood indices
  // ---------------------------------------------------------------------------

  /** A 0/1 value shifted by k is 0 or 2^k. */
  lemma ShiftedBit(v: nat, k: nat)
    requires v <= 1
    ensures Shifted(v, k) == if v == 0 then 0 else Pow2(k)
  {
    ShiftedIsProduct(v, k);
  }

  /** Closed form of the inner loop of `iterate_1d`: k rounds weight the left
      cell by 2^(nei-1) + ... + 2^(nei+k-2) and the right cell by
      2^2 + ... + 2^(k+1). */
  lemma {:induction false} Weights1Closed(l: nat, r: nat, nei: nat, k: nat)
    requires 1 <= nei && k <= nei
    ensures Weights1(l, r, nei, k) + Shifted(l, nei - 1) + Shifted(r, 2) == Shifted(l, nei + k - 1) + Shifted(r, k + 2)
  {
    if k > 0 {
      Weights1Closed(l, r, nei, k - 1);
    }
  }

  lemma ShiftedSmall(v: nat)
    ensures Shifted(v, 1) == 2 * v && Shifted(v, 2) == 4 * v
    ensures Shifted(v, 3) == 8 * v && Shifted(v, 4) == 16 * v
  {
    assert Shifted(v, 0) == v;
    assert Shifted(v, 1) == 2 * v;
    assert Shifted(v, 2) == 4 * v;
    assert Shifted(v, 3) == 8 * v;
  }

  /** Under radius 1 the index is l + 2c + 4r, the three cells as the three
      bits of a number. */
  lemma RadiusOneIndex(l: nat, c: nat, r: nat)
    ensures Index1(l, c, r, 1) == l + 2 * c + 4 * r
  {
    Weights1Closed(l, r, 1, 1);
    ShiftedSmall(l);
    ShiftedSmall(c);
    ShiftedSmall(r);
  }

  /** Under radius 2 the index is 6l + 4c + 12r: every round of the inner loop
      reads the same two adjacent cells, so the cells at distance 2 never take
      part. */
  lemma RadiusTwoIndex(l: nat, c: nat, r: nat)
    ensures Index1(l, c, r, 2) == 6 * l + 4 * c + 12 * r
  {
    Weights1Closed(l, r, 2, 2);
    ShiftedSmall(l);
    ShiftedSmall(c);
    ShiftedSmall(r);
  }

  /** With 0/1 cells and radius nei >= 1, the index is at most
      2^(2 nei - 1) + 9 * 2^(nei - 1) - 4 (all three cells alive). */
  lemma Index1BitsBound(l: nat, c: nat, r: nat, nei: nat)
    requires l <= 1 && c <= 1 && r <= 1 && nei >= 1
    ensures Index1(l, c, r, nei) + 4 <= Pow2(2 * nei - 1) + 9 * Pow2(nei - 1)
  {
    Weights1Closed(l, r, nei, nei);
    LeftWeightBound(l, nei);
    RightWeightBound(r, nei);
    ShiftedBit(c, nei);
  }

  /** The left cell's weights sum to at most 2^(2n-1) - 2^(n-1). */
  lemma LeftWeightBound(l: nat, n: nat)
    requires l <= 1 && n >= 1
    ensures Shifted(l, 2 * n - 1) + Pow2(n - 1) <= Shifted(l, n - 1) + Pow2(2 * n - 1)
  {
    ShiftedBit(l, n - 1);
    ShiftedBit(l, 2 * n - 1);
    Pow2Monotone(n - 1, 2 * n - 1);
  }

  /** The right cell's weights sum to at most 8 * 2^(n-1) - 4, and the
      centre weighs 2 * 2^(n-1). */
  lemma RightWeightBound(r: nat, n: nat)
    requires r <= 1 && n >= 1
    ensures Shifted(r, n + 2) + 4 <= Shifted(r, 2) + 8 * Pow2(n - 1)
    ensures Pow2(n) == 2 * Pow2(n - 1)
  {
    ShiftedBit(r, 2);
    ShiftedBit(r, n + 2);
    Pow2Add(n - 1, 3);
    assert Pow2(3) == 8 && Pow2(2) == 4;
  }

  /** 2^(2n - 1) + 9 * 2^(n - 1) - 4 < 2^(2n + 1) for n >= 1. */
  lemma {:induction false} PowerGap(n: nat)
    requires n >= 1
    ensures Pow2(2 * n - 1) + 9 * Pow2(n - 1) < Pow2(1 + 2 * n) + 4
  {
    if n == 1 {
      assert Pow2(3) == 8;
    } else {
      PowerGap(n - 1);
      var e := 2 * n - 3;
      assert Pow2(e + 1) == 2 * Pow2(e);
      assert Pow2(e + 2) == 2 * Pow2(e + 1);
      assert Pow2(e + 3) == 2 * Pow2(e + 2);
      assert Pow2(e + 4) == 2 * Pow2(e + 3);
      assert Pow2(n - 1) == 2 * Pow2(n - 2);
    }
  }

  /** With 0/1 cells, the index of radius nei lies below 2^(1 + 2 nei), the
      size of the rule table `new_with_random_rules` draws. */
  lemma Index1Bound(l: nat, c: nat, r: nat, nei: nat)
    requires l <= 1 && c <= 1 && r <= 1
    ensures Index1(l, c, r, nei) < Pow2(1 + 2 * nei)
  {
    if nei == 0 {
      assert Pow2(1) == 2;
    } else {
      Index1BitsBound(l, c, r, nei);
      PowerGap(nei);
    }
  }

  /** A buffer of 0/1 values reads 0 or 1 everywhere. */
  lemma CellBit(c: seq<U8>, p: int)
    requires AllBits(c)
    ensures Cell(c, p) <= 1
  {
  }

  /** The 2-D index is the window read as a binary number, entry j at bit j. */
  lemma Index2IsWeighted(w: seq<U8>)
    requires |w| == 9
    ensures Index2(w) == Weighted(w)
  {
    var v: seq<int> := w;
    assert w[9..] == [];
    WeightedTail(w, 8);
    assert Weighted(w[8..]) == v[8];
    WeightedTail(w, 7);
    assert Weighted(w[7..]) == v[7] + 2 * v[8];
    WeightedTail(w, 6);
    assert Weighted(w[6..]) == v[6] + 2 * v[7] + 4 * v[8];
    WeightedTail(w, 5);
    assert Weighted(w[5..]) == v[5] + 2 * v[6] + 4 * v[7] + 8 * v[8];
    WeightedTail(w, 4);
    assert Weighted(w[4..]) == v[4] + 2 * v[5] + 4 * v[6] + 8 * v[7] + 16 * v[8];
    WeightedTail(w, 3);
    WeightedTail(w, 2);
    WeightedTail(w, 1);
    WeightedTail(w, 0);
    assert w[0..] == w;
  }

  /** One step of reading a sequence as a binary number from position j. */
  lemma WeightedTail(w: seq<U8>, j: nat)
    requires j < |w|
    ensures Weighted(w[j..]) == w[j] + 2 * Weighted(w[j + 1..])
  {
    assert w[j..][1..] == w[j + 1..];
  }

  /** With 0/1 cells, the 2-D index lies below 512 = 2^9. */
  lemma Index2Bound(w: seq<U8>)
    requires |w| == 9 && AllBits(w)
    ensures Index2(w) < 512
  {
    assert w[0] <= 1 && w[1] <= 1 && w[2] <= 1 && w[3] <= 1 && w[4] <= 1;
    assert w[5] <= 1 && w[6] <= 1 && w[7] <= 1 && w[8] <= 1;
  }

  /** A window read from a 0/1 buffer holds only 0/1 values. */
  lemma WindowBits(c: seq<U8>, xs: nat, ys: nat, t: nat, x: int, y: int)
    requires xs > 0 && ys > 0 && AllBits(c)
    ensures AllBits(Window2(c, xs, ys, t, x, y))
  {
    var w := Window2(c, xs, ys, t, x, y);
    forall j | 0 <= j < 9
      ensures w[j] <= 1
    {
      var xl, xm, xr := (x + xs - 1) % xs, (x + xs) % xs, (x + xs + 1) % xs;
      var yu, ym, yd := (y + ys - 1) % ys, (y + ys) % ys, (y + ys + 1) % ys;
      CellBit(c, t * (xs * ys) + xl * ys + yu); CellBit(c, t * (xs * ys) + xm * ys + yu);
      CellBit(c, t * (xs * ys) + xr * ys + yu); CellBit(c, t * (xs * ys) + xl * ys + ym);
      CellBit(c, t * (xs * ys) + xm * ys + ym); CellBit(c, t * (xs * ys) + xr * ys + ym);
      CellBit(c, t * (xs * ys) + xl * ys + yd); CellBit(c, t * (xs * ys) + xm * ys + yd);
      CellBit(c, t * (xs * ys) + xr * ys + yd);
    }
  }

  /** In a 0/1 space every 1-D lookup stays inside a table of 2^(1 + 2 nei)
      entries: `iterate_1d` does not index past the rule table. */
  lemma BitsInRange1(c: seq<U8>, shape: seq<nat>, t: nat, a: Automata)
    requires |shape| == 2 && AllBits(c) && |a.rules| >= Pow2(1 + 2 * a.neighbors)
    ensures Lookups1InRange(c, shape, t, a)
  {
    var d, width := shape[0], shape[1];
    forall i | 0 <= i < d
      ensures Index1At(c, width, d, t, i, a.neighbors) < |a.rules|
    {
      CellBit(c, t * width + (i + d - 1) % d);
      CellBit(c, t * width + i);
      CellBit(c, t * width + (i + d + 1) % d);
      Index1Bound(At2(c, width, t, (i + d - 1) % d), At2(c, width, t, i), At2(c, width, t, (i + d + 1) % d), a.neighbors);
    }
  }

  /** In a 0/1 space every 2-D lookup stays inside a table of 512 entries. */
  lemma BitsInRange2(c: seq<U8>, shape: seq<nat>, t: nat, a: Automata)
    requires |shape| == 3 && AllBits(c) && |a.rules| >= 512
    ensures Lookups2InRange(c, shape, t, a)
  {
    forall x, y | 0 <= x < shape[1] && 0 <= y < shape[2]
      ensures Index2(Window2(c, shape[1], shape[2], t, x, y)) < |a.rules|
    {
      WindowBits(c, shape[1], shape[2], t, x, y);
      Index2Bound(Window2(c, shape[1], shape[2], t, x, y));
    }
  }

  // ---------------------------------------------------------------------------
  // Runs
  // ---------------------------------------------------------------------------

  /** One step from plane t, by the dimension of the space (`space.ndim()`). */
  function Step(c: seq<U8>, shape: seq<nat>, t: nat, a: Automata): (c': seq<U8>)
    requires |shape| == 2 || |shape| == 3
    ensures |c'| == |c|
  {
    if |shape| == 2 then Step1(c, shape, t, a) else Step2(c, shape, t, a)
  }

  /** The buffer after the steps from plane t0 up to plane t. */
  function Run(c: seq<U8>, shape: seq<nat>, t0: nat, t: nat, a: Automata): (c': seq<U8>)
    requires (|shape| == 2 || |shape| == 3) && t0 <= t
    ensures |c'| == |c|
    decreases t - t0
  {
    if t == t0 then c else Step(Run(c, shape, t0, t - 1, a), shape, t - 1, a)
  }

  /** A step of a 0/1 space under a 0/1 rule table leaves a 0/1 space. */
  lemma StepKeepsBits(c: seq<U8>, shape: seq<nat>, t: nat, a: Automata)
    requires |shape| == 2 || |shape| == 3
    requires AllBits(c) && AllBits(a.rules)
    ensures AllBits(Step(c, shape, t, a))
  {
    var c' := Step(c, shape, t, a);
    forall k | 0 <= k < |c'|
      ensures c'[k] <= 1
    {
      if |shape| == 2 {
        assert c'[k] == Next1(c, shape, t, a, k);
      } else {
        assert c'[k] == Next2(c, shape, t, a, k);
      }
    }
  }

  lemma {:induction false} RunKeepsBits(c: seq<U8>, shape: seq<nat>, t0: nat, t: nat, a: Automata)
    requires (|shape| == 2 || |shape| == 3) && t0 <= t
    requires AllBits(c) && AllBits(a.rules)
    ensures AllBits(Run(c, shape, t0, t, a))
    decreases t - t0
  {
    if t > t0 {
      RunKeepsBits(c, shape, t0, t - 1, a);
      StepKeepsBits(Run(c, shape, t0, t - 1, a), shape, t - 1, a);
    }
  }

  /** A step from plane t writes only plane t + 1 (for a 1-D space whose
      time extent does not exceed its width). */
  lemma StepFrame(c: seq<U8>, shape: seq<nat>, t: nat, a: Automata, k: nat)
    requires |shape| == 2 || |shape| == 3
    requires |shape| == 2 ==> shape[0] <= shape[1]
    requires k < |c|
    requires k < t * PlaneSize(shape) + PlaneSize(shape) || t * PlaneSize(shape) + 2 * PlaneSize(shape) <= k
    ensures Step(c, shape, t, a)[k] == c[k]
  {
    if |shape| == 2 {
      assert Step(c, shape, t, a)[k] == Next1(c, shape, t, a, k);
    } else {
      assert Step(c, shape, t, a)[k] == Next2(c, shape, t, a, k);
    }
  }

  /** Running from plane t0 to plane t leaves plane t0 and everything before
      it, and every plane after t, as they were. */
  lemma {:induction false} RunFrame(c: seq<U8>, shape: seq<nat>, t0: nat, t: nat, a: Automata, k: nat)
    requires (|shape| == 2 || |shape| == 3) && t0 <= t
    requires |shape| == 2 ==> shape[0] <= shape[1]
    requires k < |c|
    requires k < t0 * PlaneSize(shape) + PlaneSize(shape) || t * PlaneSize(shape) + PlaneSize(shape) <= k
    ensures Run(c, shape, t0, t, a)[k] == c[k]
    decreases t - t0
  {
    if t > t0 {
      var p := PlaneSize(shape);
      PlaneNext(t - 1, p);
      if t0 < t - 1 {
        PlaneOrder(t0, t - 1, p);
      }
      RunFrame(c, shape, t0, t - 1, a, k);
      StepFrame(Run(c, shape, t0, t - 1, a), shape, t - 1, a, k);
    }
  }

  /** What `iterate_all` needs of a simulation whose rules are interesting, to
      end and to stay inside the buffer and the rule table: the run has a
      plane left to fill and its last plane exists; cells and rules are 0/1;
      the table covers every index (2^(1 + 2 nei) entries in 1-D, 512 in
      2-D); a 1-D space is at least as wide as it is long, since
      `iterate_1d` visits shape[0] cells of each plane. */
  predicate Runnable(c: seq<U8>, shape: seq<nat>, a: Automata, iteration: nat, maxIterations: nat)
    requires |shape| == 2 || |shape| == 3
  {
    iteration < maxIterations <= shape[0] && AllBits(c) && AllBits(a.rules) &&
    if |shape| == 2 then shape[0] <= shape[1] && |a.rules| >= Pow2(1 + 2 * a.neighbors)
    else |a.rules| >= 512
  }

  /** A zeroed space seeded with a single 1 holds exactly one live cell. */
  lemma SeededSpace(c: seq<U8>, m: nat)
    requires m < |c| && forall k :: 0 <= k < |c| ==> c[k] == 0
    ensures AllBits(c[m := 1]) && CountAlive(c[m := 1]) == 1
  {
    CountAliveNonZero(c[m := 1]);
    assert multiset(c)[0] == |c| by {
      assert multiset(c) == multiset{} [0 := |c|] by {
        ZeroMultiset(c);
      }
    }
  }

  lemma {:induction false} ZeroMultiset(c: seq<U8>)
    requires forall k :: 0 <= k < |c| ==> c[k] == 0
    ensures multiset(c) == multiset{} [0 := |c|]
  {
    if c != [] {
      assert c == c[..|c| - 1] + [0];
      ZeroMultiset(c[..|c| - 1]);
    }
  }

  // ---------------------------------------------------------------------------
  // Output path
  // ---------------------------------------------------------------------------

  /** The components of `path()`: ./output/<dimension>/<neighbors>/
      <interestingness>:<hexadecimal key>.gif. The interestingness is kept as
      its exact value rather than its f32 text. */
  datatype PathKey = PathKey(dimension: nat, neighbors: nat, interesting: Interesting, key: string)

  /** `path()`: built from the dimension, the radius, the interestingness
      of the rules and their unpadded hexadecimal key, and nothing else. */
  function PathOf(a: Automata): (p: PathKey)
    ensures p.dimension == a.dimension && p.neighbors == a.neighbors
    ensures p.interesting == GetInteresting(a.rules) && p.key == Encode(a.rules, false)
  {
    PathKey(a.dimension, a.neighbors, GetInteresting(a.rules), Encode(a.rules, false))
  }

  /** The hexadecimal key does not pad its bytes, so it does not determine the
      table: two different interesting radius-2 tables, packed as 01 11 07 01
      and 11 01 07 01, share one path, and `run_random_automata` skips the
      second once the first has been written. */
  lemma PathCollision()
    ensures var a := Automata(1, 2, CollidingTable(true));
            var b := Automata(1, 2, CollidingTable(false));
            a != b && PathOf(a) == PathOf(b) && GetInteresting(a.rules).isInteresting
  {
    var ra, rb := CollidingTable(true), CollidingTable(false);
    PackUnpack([1, 17, 7, 1]);
    PackUnpack([17, 1, 7, 1]);
    HexKeysCollide();
    assert Encode(ra, false) == Encode(rb, false);
    TablesAlive();
    SameCountSameInteresting(ra, rb);
  }

  /** The two tables of `PathCollision`: the bytes spread out eight entries
      each, bit 0 first. */
  function CollidingTable(first: bool): seq<U8> {
    if first then UnpackAll([1, 17, 7, 1]) else UnpackAll([17, 1, 7, 1])
  }

  /** Both tables hold 7 live entries out of 32: a ratio of 0.21875. */
  lemma TablesAlive()
    ensures |CollidingTable(true)| == |CollidingTable(false)| == 32
    ensures CountAlive(CollidingTable(true)) == CountAlive(CollidingTable(false)) == 7
  {
    UnpackFour(1, 17, 7, 1);
    UnpackFour(17, 1, 7, 1);
    ByteAlive();
    CountAliveConcat(Unpack(1, 8), Unpack(17, 8));
    CountAliveConcat(Unpack(17, 8), Unpack(1, 8));
    CountAliveConcat(Unpack(1, 8) + Unpack(17, 8), Unpack(7, 8));
    CountAliveConcat(Unpack(17, 8) + Unpack(1, 8), Unpack(7, 8));
    CountAliveConcat(Unpack(1, 8) + Unpack(17, 8) + Unpack(7, 8), Unpack(1, 8));
    CountAliveConcat(Unpack(17, 8) + Unpack(1, 8) + Unpack(7, 8), Unpack(1, 8));
  }

  lemma UnpackFour(a: nat, b: nat, c: nat, d: nat)
    ensures UnpackAll([a, b, c, d]) == Unpack(a, 8) + Unpack(b, 8) + Unpack(c, 8) + Unpack(d, 8)
  {
    assert UnpackAll([a]) == Unpack(a, 8) by {
      UnpackAllSnoc([], a);
      assert [] + [a] == [a];
    }
    assert UnpackAll([a, b]) == UnpackAll([a]) + Unpack(b, 8) by {
      UnpackAllSnoc([a], b);
      assert [a] + [b] == [a, b];
    }
    assert UnpackAll([a, b, c]) == UnpackAll([a, b]) + Unpack(c, 8) by {
      UnpackAllSnoc([a, b], c);
      assert [a, b] + [c] == [a, b, c];
    }
    assert UnpackAll([a, b, c, d]) == UnpackAll([a, b, c]) + Unpack(d, 8) by {
      UnpackAllSnoc([a, b, c], d);
      assert [a, b, c] + [d] == [a, b, c, d];
    }
  }

  /** The bytes 1, 17 and 7 carry one, two and three set bits. */
  lemma ByteAlive()
    ensures CountAlive(Unpack(1, 8)) == 1 && CountAlive(Unpack(17, 8)) == 2 && CountAlive(Unpack(7, 8)) == 3
  {
    UnpackAlive(1, 8);
    UnpackAlive(17, 8);
    UnpackAlive(7, 8);
    SetBitsOf1();
    SetBitsOf17();
    SetBitsOf7();
  }

  /** The number of 1 digits among the low n binary digits of v. */
  function SetBits(v: nat, n: nat): nat {
    if n == 0 then 0 else v % 2 + SetBits(v / 2, n - 1)
  }

  lemma {:induction false} SetBitsOfZero(n: nat)
    ensures SetBits(0, n) == 0
  {
    if n > 0 {
      SetBitsOfZero(n - 1);
    }
  }

  lemma SetBitsOf1()
    ensures SetBits(1, 8) == 1
  {
    SetBitsOfZero(7);
  }

  lemma SetBitsOf7()
    ensures SetBits(7, 8) == 3
  {
    SetBitsOfZero(5);
    assert SetBits(1, 6) == 1 + SetBits(0, 5);
    assert SetBits(3, 7) == 1 + SetBits(1, 6);
  }

  lemma SetBitsOf17()
    ensures SetBits(17, 8) == 2
  {
    SetBitsOfZero(3);
    assert SetBits(1, 4) == 1 + SetBits(0, 3);
    assert SetBits(2, 5) == SetBits(1, 4);
    assert SetBits(4, 6) == SetBits(2, 5);
    assert SetBits(8, 7) == SetBits(4, 6);
  }

  /** Unpacking a byte turns its set bits into live entries. */
  lemma {:induction false} UnpackAlive(v: nat, n: nat)
    ensures CountAlive(Unpack(v, n)) == SetBits(v, n)
  {
    if n > 0 {
      UnpackAlive(v / 2, n - 1);
      CountAliveConcat([v % 2], Unpack(v / 2, n - 1));
      assert CountAlive([v % 2]) == v % 2 by { CountAliveNonZero([v % 2]); }
    }
  }

  /** Live entries add up over a concatenation. */
  lemma CountAliveConcat(a: seq<U8>, b: seq<U8>)
    ensures CountAlive(a + b) == CountAlive(a) + CountAlive(b)
  {
    CountAliveNonZero(a + b);
    CountAliveNonZero(a);
    CountAliveNonZero(b);
    assert multiset(a + b) == multiset(a) + multiset(b);
  }

  /** Unpadded, the bytes 01 11 07 01 and 11 01 07 01 both read "11171". */
  lemma HexKeysCollide()
    ensures RenderAll([1, 17, 7, 1], false) == RenderAll([17, 1, 7, 1], false)
  {
    HexSmall();
    RenderFour(1, 17, 7, 1, false);
    RenderFour(17, 1, 7, 1, false);
    assert "1" + "11" + "7" + "1" == "11" + "1" + "7" + "1";
  }

  /** Four bytes render as their four renderings in order. */
  lemma RenderFour(a: U8, b: U8, c: U8, d: U8, bin: bool)
    ensures RenderAll([a, b, c, d], bin) == Render(a, bin) + Render(b, bin) + Render(c, bin) + Render(d, bin)
  {
    assert [a, b, c, d][..3] == [a, b, c] && [a, b, c][..2] == [a, b] && [a, b][..1] == [a] && [a][..0] == [];
    assert RenderAll([a], bin) == Render(a, bin);
    assert RenderAll([a, b], bin) == Render(a, bin) + Render(b, bin);
    assert RenderAll([a, b, c], bin) == Render(a, bin) + Render(b, bin) + Render(c, bin);
  }

  lemma HexSmall()
    ensures Render(1, false) == "1" && Render(17, false) == "11" && Render(7, false) == "7"
  {
  }

  /** Interestingness depends only on the number of live entries and the
      size of the table. */
  lemma SameCountSameInteresting(a: seq<U8>, b: seq<U8>)
    requires CountAlive(a) == CountAlive(b) && |a| == |b|
    ensures GetInteresting(a) == GetInteresting(b)
  {
  }

  // ---------------------------------------------------------------------------
  // The simulation
  // ---------------------------------------------------------------------------

  /** `Simulation`: the space is `shape` (its `dim()`) over the flat row-major
      buffer `cells`. */
  class Simulation {
    var maxIterations: nat
    var iteration: nat
    var automata: Automata
    var shape: seq<nat>
    var cells: array<U8>

    /** A 1-D ([t, x]) or 2-D ([t, x, y]) space whose buffer holds every cell. */
    predicate Valid()
      reads this
    {
      (|shape| == 2 || |shape| == 3) && cells.Length == shape[0] * PlaneSize(shape)
    }

    /** The struct literal of `new_with_random_rules`, with a zeroed space of
        the given shape. */
    constructor (maxIterations: nat, automata: Automata, shape: seq<nat>)
      requires |shape| == 2 || |shape| == 3
      ensures Valid() && fresh(cells)
      ensures this.maxIterations == maxIterations && iteration == 0
      ensures this.automata == automata && this.shape == shape
      ensures forall k :: 0 <= k < cells.Length ==> cells[k] == 0
    {
      this.maxIterations := maxIterations;
      iteration := 0;
      this.automata := automata;
      this.shape := shape;
      cells := new U8[shape[0] * PlaneSize(shape)](_ => 0);
    }

    /** `space[[t, i]]` of a 1-D space. */
    method Get2(t: nat, i: nat) returns (v: U8)
      requires Valid() && |shape| == 2 && t < shape[0] && i < shape[1]
      ensures v == At2(cells[..], shape[1], t, i)
    {
      PlaneOrder(t, shape[0], shape[1]);
      v := cells[t * shape[1] + i];
    }

    /** The neighbourhood sum of cell i of plane t, as the body of the outer
        loop of `iterate_1d` accumulates it. */
    method Neighborhood1(t: nat, i: nat) returns (acc: nat)
      requires Valid() && |shape| == 2 && t < shape[0] && i < shape[0] <= shape[1]
      ensures acc == Index1At(cells[..], shape[1], shape[0], t, i, automata.neighbors)
    {
      var dim0 := shape[0];
      var nei := automata.neighbors;
      var idim0 := i + dim0;
      var center := Get2(t, i);
      acc := Shifted(center, nei);
      ghost var lv := At2(cells[..], shape[1], t, (idim0 - 1) % dim0);
      ghost var rv := At2(cells[..], shape[1], t, (idim0 + 1) % dim0);
      var idx := 0;
      while idx < nei
        invariant idx <= nei
        invariant acc == Shifted(center, nei) + Weights1(lv, rv, nei, idx)
      {
        var l := (idim0 - 1) % dim0;
        var r := (idim0 + 1) % dim0;
        var lc := Get2(t, l);
        acc := acc + Shifted(lc, nei + idx - 1);
        var rc := Get2(t, r);
        acc := acc + Shifted(rc, idx + 2);
        idx := idx + 1;
      }
    }

    /** `iterate_1d`: for i below shape[0] (the time extent, which the source
        takes as the width), cell i of plane iteration + 1 is set from the
        neighbourhood of cell i in plane iteration; then the counter
        advances. */
    method Iterate1D()
      requires Valid() && |shape| == 2
      requires iteration + 1 < shape[0] <= shape[1]
      requires Lookups1InRange(cells[..], shape, iteration, automata)
      modifies this`iteration, cells
      ensures Valid()
      ensures iteration == old(iteration) + 1
      ensures cells[..] == Step1(old(cells[..]), shape, old(iteration), automata)
    {
      var dim0 := shape[0];
      var width := shape[1];
      var it := iteration;
      PlaneOrder(it + 1, dim0, width);
      PlaneNext(it, width);
      var next := it * width + width;
      ghost var c0 := cells[..];
      ghost var target := Step1(c0, shape, it, automata);
      assert Lookups1InRange(c0, shape, it, automata);
      var i := 0;
      while i < dim0
        invariant i <= dim0 && iteration == it
        invariant Filled(cells[..], c0, target, next, i)
      {
        var acc := Neighborhood1(it, i);
        UntouchedPlane(cells[..], c0, target, it, width, i);
        Index1AtLocal(cells[..], c0, width, dim0, it, i, automata.neighbors);
        assert acc == Index1At(c0, width, dim0, it, i, automata.neighbors) < |automata.rules|;
        Step1At(c0, shape, it, automata, i, next + i);
        cells[next + i] := automata.rules[acc];
        i := i + 1;
      }
      assert cells[..] == target;
      iteration := iteration + 1;
    }

    /** `space[[t, x, y]]` of a 2-D space. */
    method Get3(t: nat, x: nat, y: nat) returns (v: U8)
      requires Valid() && |shape| == 3 && t < shape[0] && x < shape[1] && y < shape[2]
      ensures v == At3(cells[..], shape[1], shape[2], t, x, y)
    {
      RowMajorBound(x, y, shape[1], shape[2]);
      PlaneOrder(t, shape[0], shape[1] * shape[2]);
      v := cells[t * (shape[1] * shape[2]) + x * shape[2] + y];
    }

    /** The unrolled window sum of `iterate_2d` for cell (x, y) of plane t:
        the j-th cell of the window is shifted left by j. */
    method Neighborhood2(t: nat, x: nat, y: nat) returns (acc: nat)
      requires Valid() && |shape| == 3 && t < shape[0] && x < shape[1] && y < shape[2]
      ensures acc == Index2(Window2(cells[..], shape[1], shape[2], t, x, y))
    {
      var dimx, dimy := shape[1], shape[2];
      var xdim, ydim := x + dimx, y + dimy;
      ghost var w := Window2(cells[..], dimx, dimy, t, x, y);
      var v: nat := Get3(t, (xdim - 1) % dimx, (ydim - 1) % dimy);
      assert v == w[0];
      acc := v;
      v := Get3(t, xdim % dimx, (ydim - 1) % dimy);
      assert v == w[1];
      acc := acc + v * 2;
      v := Get3(t, (xdim + 1) % dimx, (ydim - 1) % dimy);
      assert v == w[2];
      acc := acc + v * 4;
      v := Get3(t, (xdim - 1) % dimx, ydim % dimy);
      assert v == w[3];
      acc := acc + v * 8;
      v := Get3(t, xdim % dimx, ydim % dimy);
      assert v == w[4];
      acc := acc + v * 16;
      v := Get3(t, (xdim + 1) % dimx, ydim % dimy);
      assert v == w[5];
      acc := acc + v * 32;
      v := Get3(t, (xdim - 1) % dimx, (ydim + 1) % dimy);
      assert v == w[6];
      acc := acc + v * 64;
      v := Get3(t, xdim % dimx, (ydim + 1) % dimy);
      assert v == w[7];
      acc := acc + v * 128;
      v := Get3(t, (xdim + 1) % dimx, (ydim + 1) % dimy);
      assert v == w[8];
      acc := acc + v * 256;
    }

    /** `iterate_2d`: every cell (x, y) of plane iteration + 1 is set from its
        window in plane iteration; then the counter advances. */
    method Iterate2D()
      requires Valid() && |shape| == 3
      requires iteration + 1 < shape[0]
      requires Lookups2InRange(cells[..], shape, iteration, automata)
      modifies this`iteration, cells
      ensures Valid()
      ensures iteration == old(iteration) + 1
      ensures cells[..] == Step2(old(cells[..]), shape, old(iteration), automata)
    {
      var dimx, dimy := shape[1], shape[2];
      var it := iteration;
      PlaneOrder(it + 1, shape[0], dimx * dimy);
      PlaneNext(it, dimx * dimy);
      ghost var next := it * (dimx * dimy) + dimx * dimy;
      ghost var c0 := cells[..];
      ghost var target := Step2(c0, shape, it, automata);
      var x := 0;
      while x < dimx
        invariant x <= dimx && iteration == it
        invariant Filled(cells[..], c0, target, next, x * dimy)
      {
        PlaneNext(x, dimy);
        PlaneOrder(x, dimx, dimy);
        FillRow2(it, x, c0, target);
        x := x + 1;
      }
      assert cells[..] == target;
      iteration := iteration + 1;
    }

    /** The inner loop of `iterate_2d`: sets the cells (x, 0), ..., (x, ys - 1)
        of plane it + 1. */
    method FillRow2(it: nat, x: nat, ghost c0: seq<U8>, ghost target: seq<U8>)
      requires Valid() && |shape| == 3 && it + 1 < shape[0] && x < shape[1]
      requires target == Step2(c0, shape, it, automata) && Lookups2InRange(c0, shape, it, automata)
      requires x * shape[2] + shape[2] <= shape[1] * shape[2]
      requires Filled(cells[..], c0, target, it * (shape[1] * shape[2]) + shape[1] * shape[2], x * shape[2])
      modifies cells
      ensures Valid()
      ensures Filled(cells[..], c0, target, it * (shape[1] * shape[2]) + shape[1] * shape[2], x * shape[2] + shape[2])
    {
      var dimx, dimy := shape[1], shape[2];
      var plane := dimx * dimy;
      PlaneOrder(it + 1, shape[0], plane);
      PlaneNext(it, plane);
      var next := it * plane + plane;
      PlaneNext(x, dimy);
      ghost var done: nat := x * dimy;
      var y := 0;
      while y < dimy
        invariant y <= dimy && done == x * dimy + y
        invariant Filled(cells[..], c0, target, next, done)
      {
        var acc := Neighborhood2(it, x, y);
        UntouchedPlane(cells[..], c0, target, it, plane, done);
        Window2Local(cells[..], c0, dimx, dimy, it, x, y);
        assert acc == Index2(Window2(c0, dimx, dimy, it, x, y)) < |automata.rules|;
        RowMajorBound(x, y, dimx, dimy);
        var pos := next + x * dimy + y;
        Step2At(c0, shape, it, automata, x, y, pos);
        cells[pos] := automata.rules[acc];
        done := done + 1;
        y := y + 1;
      }
    }

    /** `is_complete`: the current plane is the last one, index
        maxIterations - 1. */
    function IsComplete(): (r: bool)
      reads this
      ensures r <==> maxIterations >= 1 && iteration == maxIterations - 1
    {
      iteration + 1 == maxIterations
    }

    /** `iterate_all`: a simulation whose rules are interesting steps plane by
        plane until the last plane, maxIterations - 1, has been filled; one
        whose rules are not is left alone. */
    method IterateAll()
      requires Valid()
      requires GetInteresting(automata.rules).isInteresting ==>
                 Runnable(cells[..], shape, automata, iteration, maxIterations)
      modifies this`iteration, cells
      ensures Valid()
      ensures GetInteresting(automata.rules).isInteresting ==>
                iteration == maxIterations - 1 &&
                cells[..] == Run(old(cells[..]), shape, old(iteration), maxIterations - 1, automata)
      ensures !GetInteresting(automata.rules).isInteresting ==>
                iteration == old(iteration) && cells[..] == old(cells[..])
    {
      if GetInteresting(automata.rules).isInteresting {
        ghost var c0 := cells[..];
        ghost var t0 := iteration;
        while !IsComplete()
          invariant Valid() && t0 <= iteration < maxIterations
          invariant Runnable(cells[..], shape, automata, iteration, maxIterations)
          invariant cells[..] == Run(c0, shape, t0, iteration, automata)
          decreases maxIterations - iteration
        {
          ghost var it := iteration;
          IterateOnce();
          assert Run(c0, shape, t0, it + 1, automata) == Step(Run(c0, shape, t0, it, automata), shape, it, automata);
        }
      }
    }

    /** The body of the loop of `iterate_all`: one step of the space by its
        dimension. */
    method IterateOnce()
      requires Valid() && Runnable(cells[..], shape, automata, iteration, maxIterations)
      requires !IsComplete()
      modifies this`iteration, cells
      ensures Valid()
      ensures iteration == old(iteration) + 1
      ensures cells[..] == Step(old(cells[..]), shape, old(iteration), automata)
      ensures Runnable(cells[..], shape, automata, iteration, maxIterations)
    {
      ghost var before := cells[..];
      if |shape| == 2 {
        BitsInRange1(before, shape, iteration, automata);
        Iterate1D();
      } else {
        BitsInRange2(before, shape, iteration, automata);
        Iterate2D();
      }
      StepKeepsBits(before, shape, iteration - 1, automata);
    }

    /** `initialize_space`: cell shape[0] / 2 of plane 0 becomes 1. The index
        is taken from the time extent shape[0]; the source panics unless it
        lies inside the first row. */
    method InitializeSpace()
      requires Valid() && |shape| == 2 && shape[0] > 0 && shape[0] / 2 < shape[1]
      modifies cells
      ensures Valid()
      ensures cells[..] == old(cells[..])[shape[0] / 2 := 1]
    {
      var middle := shape[0] / 2;
      PlaneOrder(0, shape[0], shape[1]);
      cells[middle] := 1;
    }
  }
}
