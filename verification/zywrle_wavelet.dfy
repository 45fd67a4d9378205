/** The integer wavelet of src/encodings/zywrletemplate.c, in place on the coefficient buffer.

    The buffer is the source's array of ints; the transform reads the first three bytes of each
    as signed characters, so a cell has three signed lanes and a fourth byte it never touches. */
module ZywrleWavelet {
  import opened Area
  import opened Bits

  type schar = x: int | -128 <= x < 128

  datatype Cell = Cell(b: schar, g: schar, r: schar, pad: schar)

  /** The cast to signed char. */
  function ToSchar(x: int): (s: schar)
    ensures -128 <= x < 128 ==> s == x
  {
    (x + 128) % 256 - 128
  }

  /** Bit 7 of the two's complement form of x. */
  predicate Bit7(x: int) {
    x % 256 >= 128
  }

  /** The step of Senecal et al.: for equal signs the difference and the operand that is not
      nearer zero, for different signs the sum and the (flipped) operand farther from zero. */
  function PLHarr(x0: schar, x1: schar): (schar, schar) {
    if (x0 < 0) == (x1 < 0) then
      (if (x0 - x1 < 0) == (x0 < 0) then x0 else x1, x0 - x1)
    else
      (x0 + x1, if (x0 + x1 < 0) == (x1 < 0) then ToSchar(-(x1 as int)) else x0)
  }

  method Harr(pX0: schar, pX1: schar) returns (q0: schar, q1: schar)
    ensures (q0, q1) == PLHarr(pX0, pX1)
    ensures IsHaarStep(pX0, pX1, q0, q1)
  {
    hide IsHaarStep;
    var x0: int, x1: int := pX0, pX1;
    var orgX0, orgX1 := x0, x1;
    if Bit7(x0) != Bit7(x1) {
      x1 := x1 + x0;
      if Bit7(x1) == Bit7(orgX1) {
        x0 := x0 - x1;
      }
    } else {
      x0 := x0 - x1;
      if Bit7(x0) == Bit7(orgX0) {
        x1 := x1 + x0;
      }
    }
    q0, q1 := ToSchar(x1), ToSchar(x0);
    HarrMeaning(pX0, pX1);
  }

  /** What the step computes. Operands of one sign: their difference, and the operand farther
      from zero. Operands of different signs: their sum, and the distance of the farther operand
      with the sign of the first, except that 128 is cut to -128. */
  predicate IsHaarStep(x0: schar, x1: schar, l: schar, h: schar) {
    if (x0 < 0) == (x1 < 0) then
      h == x0 - x1 && (l == x0 || l == x1) && Abs(l) >= Abs(x0) && Abs(l) >= Abs(x1)
    else
      && l == x0 + x1
      && if x1 == -128 then h == -128
         else (h < 0 <==> x0 < 0) && Abs(h) >= Abs(x0) && Abs(h) >= Abs(x1) && (h == x0 || h == -x1)
  }

  lemma {:induction false} HarrMeaning(x0: schar, x1: schar)
    ensures var (l, h) := PLHarr(x0, x1); IsHaarStep(x0, x1, l, h)
  {
  }

  /** A constant line has no detail. */
  lemma {:induction false} EqualOperands(x: schar)
    ensures PLHarr(x, x) == (x, 0)
  {
  }

  /** The step undoes itself exactly when it is not given a second operand of -128 with a
      non-negative first one; hence the "odd range" [-127, 127] of the codec. */
  lemma {:induction false} HarrInvolution(x0: schar, x1: schar)
    ensures var (l, h) := PLHarr(x0, x1); PLHarr(l, h) == (x0, x1) <==> !(x1 == -128 && x0 >= 0)
  {
  }

  function Abs(x: int): nat {
    if x < 0 then -x else x
  }

  function Max(x: int, y: int): int {
    if x < y then y else x
  }

  /** The step moves a point along its square ring about the origin. */
  lemma {:induction false} HarrKeepsRing(x0: schar, x1: schar)
    ensures var (l, h) := PLHarr(x0, x1); Max(Abs(l), Abs(h)) == Max(Abs(x0), Abs(x1))
  {
  }

  /** The range the codec keeps its coefficients in. */
  predicate Odd(c: Cell) {
    c.b != -128 && c.g != -128 && c.r != -128
  }

  function PLHarrCells(c0: Cell, c1: Cell): (Cell, Cell) {
    var (b0, b1) := PLHarr(c0.b, c1.b);
    var (g0, g1) := PLHarr(c0.g, c1.g);
    var (r0, r1) := PLHarr(c0.r, c1.r);
    (Cell(b0, g0, r0, c0.pad), Cell(b1, g1, r1, c1.pad))
  }

  lemma {:induction false} HarrCells(c0: Cell, c1: Cell)
    requires Odd(c0) && Odd(c1)
    ensures var (l, h) := PLHarrCells(c0, c1); Odd(l) && Odd(h) && PLHarrCells(l, h) == (c0, c1)
  {
    HarrInvolution(c0.b, c1.b);
    HarrInvolution(c0.g, c1.g);
    HarrInvolution(c0.r, c1.r);
    HarrKeepsRing(c0.b, c1.b);
    HarrKeepsRing(c0.g, c1.g);
    HarrKeepsRing(c0.r, c1.r);
  }

  /** Transform the cells at p and p + ofs for every p of ps, first to last. */
  function ApplyPairs(d: seq<Cell>, ps: seq<nat>, ofs: nat): (r: seq<Cell>)
    ensures |r| == |d|
  {
    if ps == [] then d
    else
      var prev, p := ApplyPairs(d, ps[..|ps| - 1], ofs), ps[|ps| - 1];
      if ofs > 0 && p + ofs < |d| then
        var (l, h) := PLHarrCells(prev[p], prev[p + ofs]);
        prev[p := l][p + ofs := h]
      else prev
  }

  lemma {:induction false} ApplyPairsAdd(d: seq<Cell>, ps: seq<nat>, qs: seq<nat>, ofs: nat)
    ensures ApplyPairs(d, ps + qs, ofs) == ApplyPairs(ApplyPairs(d, ps, ofs), qs, ofs)
  {
    if qs == [] {
      assert ps + qs == ps;
    } else {
      assert (ps + qs)[..|ps + qs| - 1] == ps + qs[..|qs| - 1];
      ApplyPairsAdd(d, ps, qs[..|qs| - 1], ofs);
    }
  }

  /** No cell belongs to two of the pairs. */
  ghost predicate Apart(ps: seq<nat>, ofs: nat) {
    forall i, j :: 0 <= i < j < |ps| ==> Separate(ps[i], ps[j], ofs)
  }

  predicate Separate(p: nat, q: nat, ofs: nat) {
    p != q && p + ofs != q && p != q + ofs
  }

  ghost predicate Within(ps: seq<nat>, ofs: nat, n: nat) {
    forall i :: 0 <= i < |ps| ==> ps[i] + ofs < n
  }

  ghost predicate OddUpTo(d: seq<Cell>, n: nat) {
    n <= |d| && forall i :: 0 <= i < n ==> Odd(d[i])
  }

  /** A cell outside all pairs keeps its value. */
  lemma {:induction false} PairFrame(d: seq<Cell>, ps: seq<nat>, ofs: nat, q: nat)
    requires q < |d| && forall i :: 0 <= i < |ps| ==> ps[i] != q && ps[i] + ofs != q
    ensures ApplyPairs(d, ps, ofs)[q] == d[q]
  {
    if ps != [] {
      PairFrame(d, ps[..|ps| - 1], ofs, q);
    }
  }

  /** Each pair is transformed once, from its original values. */
  lemma {:induction false} PairAt(d: seq<Cell>, ps: seq<nat>, ofs: nat, k: nat)
    requires ofs > 0 && k < |ps| && Apart(ps, ofs) && Within(ps, ofs, |d|)
    ensures var r, p := ApplyPairs(d, ps, ofs), ps[k]; (r[p], r[p + ofs]) == PLHarrCells(d[p], d[p + ofs])
  {
    var init, p := ps[..|ps| - 1], ps[k];
    if k == |ps| - 1 {
      forall i | 0 <= i < |init|
        ensures init[i] != p && init[i] + ofs != p && init[i] != p + ofs
      {
        assert Separate(ps[i], ps[k], ofs);
      }
      PairFrame(d, init, ofs, p);
      PairFrame(d, init, ofs, p + ofs);
    } else {
      assert Apart(init, ofs) by {
        forall i, j | 0 <= i < j < |init|
          ensures Separate(init[i], init[j], ofs)
        {
          assert Separate(ps[i], ps[j], ofs);
        }
      }
      PairAt(d, init, ofs, k);
      assert Separate(ps[k], ps[|ps| - 1], ofs);
    }
  }

  /** A pass over separate pairs keeps the odd range and undoes itself. */
  lemma {:induction false} PassInvolution(d: seq<Cell>, ps: seq<nat>, ofs: nat, n: nat)
    requires ofs > 0 && Apart(ps, ofs) && Within(ps, ofs, n) && OddUpTo(d, n)
    ensures OddUpTo(ApplyPairs(d, ps, ofs), n)
    ensures ApplyPairs(ApplyPairs(d, ps, ofs), ps, ofs) == d
  {
    var once := ApplyPairs(d, ps, ofs);
    var twice := ApplyPairs(once, ps, ofs);
    forall q | 0 <= q < |d|
      ensures twice[q] == d[q] && (q < n ==> Odd(once[q]))
    {
      PassInvolutionAt(d, ps, ofs, n, q);
    }
  }

  lemma {:induction false} PassInvolutionAt(d: seq<Cell>, ps: seq<nat>, ofs: nat, n: nat, q: nat)
    requires ofs > 0 && Apart(ps, ofs) && Within(ps, ofs, n) && OddUpTo(d, n) && q < |d|
    ensures var once := ApplyPairs(d, ps, ofs);
            && (q < n ==> Odd(once[q]))
            && ApplyPairs(once, ps, ofs)[q] == d[q]
  {
    hide ApplyPairs;
    var once := ApplyPairs(d, ps, ofs);
    if k :| 0 <= k < |ps| && (ps[k] == q || ps[k] + ofs == q) {
      PairAt(d, ps, ofs, k);
      PairAt(once, ps, ofs, k);
      HarrCells(d[ps[k]], d[ps[k] + ofs]);
    } else {
      PairFrame(d, ps, ofs, q);
      PairFrame(once, ps, ofs, q);
    }
  }

  /** n positions, `step` apart. */
  function Line(start: nat, step: nat, n: nat): (ps: seq<nat>)
    ensures |ps| == n
  {
    if n == 0 then [] else Line(start, step, n - 1) + [start + (n - 1) * step]
  }

  /** m lines, `across` apart. */
  function Grid(start: nat, across: nat, m: nat, step: nat, n: nat): (ps: seq<nat>)
    ensures |ps| == Rows(n, m)
  {
    if m == 0 then [] else Grid(start, across, m - 1, step, n) + Line(start + (m - 1) * across, step, n)
  }

  lemma {:induction false} LineAt(start: nat, step: nat, n: nat, i: nat)
    requires i < n
    ensures Line(start, step, n)[i] == start + i * step
  {
    if i < n - 1 {
      LineAt(start, step, n - 1, i);
    }
  }

  /** The k-th position of the grid is place t of line a, for the a and t that number it. */
  lemma {:induction false} GridAt(start: nat, across: nat, m: nat, step: nat, n: nat, k: nat) returns (a: nat, t: nat)
    requires k < Rows(n, m)
    ensures a < m && t < n && k == Rows(n, a) + t
    ensures Grid(start, across, m, step, n)[k] == start + a * across + t * step
  {
    if k < Rows(n, m - 1) {
      a, t := GridAt(start, across, m - 1, step, n, k);
    } else {
      a, t := m - 1, k - Rows(n, m - 1);
      LineAt(start + a * across, step, n, t);
    }
  }

  /** One level of the transform in one direction: `count` lines `across` apart, each paired up
      as cells 2t*ofs and (2t+1)*ofs for t < pairs. */
  datatype Pass = Pass(across: nat, count: nat, ofs: nat, pairs: nat) {
    function Lows(): seq<nat> {
      Grid(0, across, count, 2 * ofs, pairs)
    }

    function Apply(d: seq<Cell>): (r: seq<Cell>)
      ensures |r| == |d|
    {
      ApplyPairs(d, Lows(), ofs)
    }

    /** Rows: each line ends before the next begins, and there are n cells of lines. */
    ghost predicate Rowwise(n: nat) {
      ofs > 0 && pairs * (2 * ofs) <= across && count * across <= n
    }

    /** Columns: all lines start within one pair offset, and a line spans at most n cells. */
    ghost predicate Columnwise(n: nat) {
      ofs > 0 && across > 0 && count * across <= ofs && pairs * (2 * ofs) <= n
    }

    /** The two halves of a pair are numbered u == 2t and u == 2t + 1. */
    function Address(a: nat, u: nat): nat {
      a * across + u * ofs
    }

    lemma {:induction false} AddressInjective(n: nat, a: nat, u: nat, a': nat, u': nat)
      requires Rowwise(n) || Columnwise(n)
      requires a < count && a' < count && u < 2 * pairs && u' < 2 * pairs
      ensures Address(a, u) < n
      ensures Address(a, u) == Address(a', u') ==> a == a' && u == u'
    {
      Doubled(pairs);
      if Rowwise(n) {
        TwoDigits(n, a, u, a', u', across, ofs, count, 2 * pairs);
      } else {
        TwoDigits(n, u, a, u', a', ofs, across, 2 * pairs, count);
      }
    }

    lemma {:induction false} LowsApart(n: nat)
      requires Rowwise(n) || Columnwise(n)
      ensures Apart(Lows(), ofs) && Within(Lows(), ofs, n)
    {
      hide Grid, Rows, Line;
      var ps := Lows();
      forall i | 0 <= i < |ps|
        ensures ps[i] + ofs < n
      {
        var a, t := GridAt(0, across, count, 2 * ofs, pairs, i);
        Doubled(t);
        AddressInjective(n, a, 2 * t + 1, a, 2 * t + 1);
      }
      forall i, j | 0 <= i < j < |ps|
        ensures Separate(ps[i], ps[j], ofs)
      {
        var a, t := GridAt(0, across, count, 2 * ofs, pairs, i);
        var a', t' := GridAt(0, across, count, 2 * ofs, pairs, j);
        Doubled(t);
        Doubled(t');
        AddressInjective(n, a, 2 * t, a', 2 * t');
        AddressInjective(n, a, 2 * t + 1, a', 2 * t');
        AddressInjective(n, a, 2 * t, a', 2 * t' + 1);
      }
    }

    lemma {:induction false} Doubled(t: nat)
      ensures t * (2 * ofs) == (2 * t) * ofs && (2 * t + 1) * ofs == (2 * t) * ofs + ofs
    {
    }
  }

  /** Digits of weight `big` and `small` when all the small places together stay below `big`. */
  lemma {:induction false} TwoDigits(n: nat, i: nat, j: nat, i': nat, j': nat,
                                     big: nat, small: nat, bigs: nat, smalls: nat)
    requires small > 0 && smalls * small <= big && bigs * big <= n
    requires i < bigs && i' < bigs && j < smalls && j' < smalls
    ensures i * big + j * small < n
    ensures i * big + j * small == i' * big + j' * small ==> i == i' && j == j'
  {
    LastPlace(j, smalls, small);
    LastPlace(j', smalls, small);
    LastPlace(i, bigs, big);
    if i * big + j * small == i' * big + j' * small {
      Digits(i, j * small, i', j' * small, big);
      Digits(j, 0, j', 0, small);
    }
  }

  /** Rows of a width x height buffer at level l, and its columns. */
  function RowPass(width: nat, height: nat, l: nat): Pass {
    Pass(width * Pow2(l), Shr(height, l), Pow2(l), Shr(width, l + 1))
  }

  function ColumnPass(width: nat, height: nat, l: nat): Pass {
    Pass(Pow2(l), Shr(width, l), Pow2(l) * width, Shr(height, l + 1))
  }

  lemma {:induction false} PassesFit(width: nat, height: nat, l: nat)
    requires width > 0 && Aligned(width, l + 1) && Aligned(height, l + 1)
    ensures RowPass(width, height, l).Rowwise(width * height)
    ensures RowPass(width, height, l).count * RowPass(width, height, l).across == width * height
    ensures ColumnPass(width, height, l).Columnwise(width * height)
    ensures ColumnPass(width, height, l).count * ColumnPass(width, height, l).across == width
  {
    var p := Pow2(l);
    ShrHalves(width, l);
    ShrHalves(height, l);
    ShrExact(width, l + 1);
    ShrExact(height, l + 1);
    ShrExact(width, l);
    ShrExact(height, l);
    assert Shr(width, l + 1) * (2 * p) == width;
    AtLeast(width, p);
    Regroup(Shr(height, l), width, p);
    Regroup(Shr(height, l + 1), width, 2 * p);
    assert 2 * (p * width) == (2 * p) * width;
  }

  lemma {:induction false} AtLeast(x: nat, p: nat)
    requires p > 0
    ensures x <= x * p && x <= p * x
  {
    assert x * p == x + x * (p - 1);
  }

  lemma {:induction false} Regroup(q: nat, w: nat, p: nat)
    ensures q * (w * p) == w * (q * p) && q * (p * w) == w * (q * p)
  {
  }

  /** The transform through its first l levels, and its inverse. */
  function Forward(d: seq<Cell>, width: nat, height: nat, l: nat): (r: seq<Cell>)
    ensures |r| == |d|
  {
    if l == 0 then d
    else
      ColumnPass(width, height, l - 1).Apply(RowPass(width, height, l - 1).Apply(Forward(d, width, height, l - 1)))
  }

  function Inverse(d: seq<Cell>, width: nat, height: nat, l: nat): (r: seq<Cell>)
    ensures |r| == |d|
    decreases l
  {
    if l == 0 then d
    else
      Inverse(RowPass(width, height, l - 1).Apply(ColumnPass(width, height, l - 1).Apply(d)), width, height, l - 1)
  }

  lemma {:induction false} GridPlace(start: nat, across: nat, m: nat, step: nat, n: nat, a: nat, t: nat)
    requires a < m && t < n
    ensures Rows(n, a) + t < Rows(n, m)
    ensures Grid(start, across, m, step, n)[Rows(n, a) + t] == start + a * across + t * step
  {
    if a < m - 1 {
      GridPlace(start, across, m - 1, step, n, a, t);
    } else {
      LineAt(start + a * across, step, n, t);
    }
  }

  ghost predicate PairStep(d: seq<Cell>, r: seq<Cell>, p: nat, ofs: nat) {
    p + ofs < |d| == |r| && (r[p], r[p + ofs]) == PLHarrCells(d[p], d[p + ofs])
  }

  /** A pass transforms pair t of line a, from what the pair held before the pass. */
  lemma {:induction false} PassAt(p: Pass, d: seq<Cell>, n: nat, a: nat, t: nat)
    requires (p.Rowwise(n) || p.Columnwise(n)) && n <= |d| && a < p.count && t < p.pairs
    ensures PairStep(d, p.Apply(d), p.Address(a, 2 * t), p.ofs)
  {
    p.Doubled(t);
    hide Grid, ApplyPairs, Apart;
    p.LowsApart(n);
    GridPlace(0, p.across, p.count, 2 * p.ofs, p.pairs, a, t);
    PairAt(d, p.Lows(), p.ofs, Rows(p.pairs, a) + t);
  }

  lemma {:induction false} PassUndone(p: Pass, d: seq<Cell>, n: nat)
    requires p.Rowwise(n) || p.Columnwise(n)
    requires OddUpTo(d, n)
    ensures OddUpTo(p.Apply(d), n) && p.Apply(p.Apply(d)) == d
  {
    p.LowsApart(n);
    PassInvolution(d, p.Lows(), p.ofs, n);
  }

  /** Column x of row y of a buffer. */
  function CellAt(width: nat, x: nat, y: nat): nat {
    y * width + x
  }

  /** The cells of a block are transformed along its rows, p00 with p10 and p01 with p11, and the
      results along its columns. */
  ghost predicate BlockStep(d: seq<Cell>, r: seq<Cell>, p00: nat, p10: nat, p01: nat, p11: nat) {
    && p00 < |d| && p10 < |d| && p01 < |d| && p11 < |d| == |r|
    && var (a, b) := PLHarrCells(d[p00], d[p10]);
       var (e, f) := PLHarrCells(d[p01], d[p11]);
       (r[p00], r[p01]) == PLHarrCells(a, e) && (r[p10], r[p11]) == PLHarrCells(b, f)
  }

  /** Level l works on blocks of two by two cells, 2^l apart: first the two rows of a block are
      transformed, then its columns. */
  lemma {:induction false} LevelBlock(d: seq<Cell>, width: nat, height: nat, l: nat, x: nat, y: nat)
    requires Aligned(width, l + 1) && Aligned(height, l + 1) && width * height <= |d|
    requires x < width && y < height && Aligned(x, l + 1) && Aligned(y, l + 1)
    ensures var s := Pow2(l);
            BlockStep(Forward(d, width, height, l), Forward(d, width, height, l + 1), CellAt(width, x, y),
                      CellAt(width, x + s, y), CellAt(width, x, y + s), CellAt(width, x + s, y + s))
  {
    hide Forward, Pass.Apply, Pass.Rowwise, Pass.Columnwise, Shr, PLHarrCells;
    var s, i, j := Pow2(l), Shr(x, l + 1), Shr(y, l + 1);
    BlockCells(width, height, l, x, y);
    ForwardNext(d, width, height, l);
    PassesFit(width, height, l);
    var rows, columns := RowPass(width, height, l), ColumnPass(width, height, l);
    var d0 := Forward(d, width, height, l);
    rows.Doubled(i);
    columns.Doubled(j);
    PassAt(rows, d0, width * height, 2 * j, i);
    PassAt(rows, d0, width * height, 2 * j + 1, i);
    PassAt(columns, rows.Apply(d0), width * height, 2 * i, j);
    PassAt(columns, rows.Apply(d0), width * height, 2 * i + 1, j);
  }

  lemma {:induction false} ForwardNext(d: seq<Cell>, width: nat, height: nat, l: nat)
    ensures Forward(d, width, height, l + 1) ==
            ColumnPass(width, height, l).Apply(RowPass(width, height, l).Apply(Forward(d, width, height, l)))
  {
  }

  /** Where the passes find the four cells of a block. */
  lemma {:induction false} BlockCells(width: nat, height: nat, l: nat, x: nat, y: nat)
    requires Aligned(width, l + 1) && Aligned(height, l + 1)
    requires x < width && y < height && Aligned(x, l + 1) && Aligned(y, l + 1)
    ensures var s, i, j := Pow2(l), Shr(x, l + 1), Shr(y, l + 1);
            && i < Shr(width, l + 1) && j < Shr(height, l + 1)
            && Shr(width, l) == 2 * Shr(width, l + 1) && Shr(height, l) == 2 * Shr(height, l + 1)
            && 2 * j * (width * s) + i * (2 * s) == CellAt(width, x, y)
            && (2 * j + 1) * (width * s) + i * (2 * s) == CellAt(width, x, y + s)
            && 2 * i * s + j * (2 * (s * width)) == CellAt(width, x, y)
            && (2 * i + 1) * s + j * (2 * (s * width)) == CellAt(width, x + s, y)
            && CellAt(width, x + s, y) == CellAt(width, x, y) + s
            && CellAt(width, x + s, y + s) == CellAt(width, x, y + s) + s
            && CellAt(width, x, y + s) == CellAt(width, x, y) + s * width
            && CellAt(width, x + s, y + s) == CellAt(width, x + s, y) + s * width
  {
    var s, i, j := Pow2(l), Shr(x, l + 1), Shr(y, l + 1);
    ShrHalves(width, l);
    ShrHalves(height, l);
    ShrExact(x, l + 1);
    ShrExact(y, l + 1);
    SmallerShr(x, width, l + 1);
    SmallerShr(y, height, l + 1);
    assert x == i * (2 * s) && y == j * (2 * s);
    BlockRow(j, s, width);
  }

  lemma {:induction false} BlockRow(j: nat, s: nat, width: nat)
    ensures 2 * j * (width * s) == j * (2 * s) * width && j * (2 * (s * width)) == j * (2 * s) * width
    ensures (2 * j + 1) * (width * s) == (j * (2 * s) + s) * width == j * (2 * s) * width + s * width
  {
    assert 2 * j * (width * s) == (2 * j * s) * width;
    assert j * (2 * s) == 2 * j * s;
    assert (2 * j + 1) * (width * s) == 2 * j * (width * s) + width * s;
    assert (2 * j * s + s) * width == 2 * j * s * width + s * width;
    assert j * (2 * (s * width)) == 2 * j * s * width;
  }

  lemma {:induction false} SmallerShr(x: nat, y: nat, n: nat)
    requires x < y && Aligned(x, n) && Aligned(y, n)
    ensures Shr(x, n) < Shr(y, n)
  {
    ShrExact(x, n);
    ShrExact(y, n);
    if Shr(y, n) < Shr(x, n) {
      LastPlace(Shr(y, n), Shr(x, n), Pow2(n));
    }
  }

  /** Cells off the grid of every 2^l-th row and column keep their values at level l. */
  lemma {:induction false} LevelKeeps(d: seq<Cell>, width: nat, height: nat, l: nat, x: nat, y: nat)
    requires Aligned(width, l + 1) && Aligned(height, l + 1) && width * height <= |d|
    requires x < width && y < height && !(Aligned(x, l) && Aligned(y, l))
    ensures CellAt(width, x, y) < |d|
    ensures Forward(d, width, height, l + 1)[CellAt(width, x, y)] == Forward(d, width, height, l)[CellAt(width, x, y)]
  {
    hide Forward, Pass.Apply;
    LastPlace(y, height, width);
    ForwardNext(d, width, height, l);
    var d0 := Forward(d, width, height, l);
    OffGrid(RowPass(width, height, l), d0, width, height, l, x, y);
    OffGrid(ColumnPass(width, height, l), RowPass(width, height, l).Apply(d0), width, height, l, x, y);
  }

  lemma {:induction false} OffGrid(p: Pass, d: seq<Cell>, width: nat, height: nat, l: nat, x: nat, y: nat)
    requires Aligned(width, l + 1) && Aligned(height, l + 1) && width * height <= |d|
    requires p == RowPass(width, height, l) || p == ColumnPass(width, height, l)
    requires x < width && y < height && !(Aligned(x, l) && Aligned(y, l)) && CellAt(width, x, y) < |d|
    ensures p.Apply(d)[CellAt(width, x, y)] == d[CellAt(width, x, y)]
  {
    hide Grid, ApplyPairs, Shr, Aligned, Pow2, RowPass, ColumnPass, CellAt;
    var ps := p.Lows();
    forall k | 0 <= k < |ps|
      ensures ps[k] != CellAt(width, x, y) && ps[k] + p.ofs != CellAt(width, x, y)
    {
      var a, t := GridAt(0, p.across, p.count, 2 * p.ofs, p.pairs, k);
      p.Doubled(t);
      if p.Address(a, 2 * t) == CellAt(width, x, y) {
        OnGrid(p, width, height, l, a, 2 * t, x, y);
      }
      if p.Address(a, 2 * t + 1) == CellAt(width, x, y) {
        OnGrid(p, width, height, l, a, 2 * t + 1, x, y);
      }
    }
    PairFrame(d, ps, p.ofs, CellAt(width, x, y));
  }

  /** A pass only touches cells on its level's grid. */
  lemma {:induction false} OnGrid(p: Pass, width: nat, height: nat, l: nat, a: nat, u: nat, x: nat, y: nat)
    requires Aligned(width, l + 1) && Aligned(height, l + 1) && x < width && y < height
    requires p == RowPass(width, height, l) || p == ColumnPass(width, height, l)
    requires a < p.count && u < 2 * p.pairs && p.Address(a, u) == CellAt(width, x, y)
    ensures Aligned(x, l) && Aligned(y, l)
  {
    hide Shr, Aligned, Pow2;
    ShrHalves(width, l);
    ShrHalves(height, l);
    ShrExact(width, l);
    if p == RowPass(width, height, l) {
      Regroup(a, width, Pow2(l));
      OnGridAt(width, Shr(width, l), l, u, a, x, y);
    } else {
      Regroup(u, width, Pow2(l));
      OnGridAt(width, Shr(width, l), l, a, u, x, y);
    }
  }

  lemma {:induction false} OnGridAt(width: nat, n: nat, l: nat, i: nat, j: nat, x: nat, y: nat)
    requires x < width && n * Pow2(l) == width && i < n
    requires width * (j * Pow2(l)) + i * Pow2(l) == CellAt(width, x, y)
    ensures Aligned(x, l) && Aligned(y, l)
  {
    hide Pow2;
    var s := Pow2(l);
    LastPlace(i, n, s);
    assert width * (j * s) == (j * s) * width;
    Digits(j * s, i * s, y, x, width);
    DivModUnique(x, s, i, 0);
    DivModUnique(y, s, j, 0);
  }

  /** Perfect reconstruction, for every number of levels and every buffer of aligned size whose
      coefficients are in the odd range; they stay there at every level. */
  lemma {:induction false} PerfectReconstruction(d: seq<Cell>, width: nat, height: nat, l: nat)
    requires width > 0 && Aligned(width, l) && Aligned(height, l) && OddUpTo(d, width * height)
    ensures OddUpTo(Forward(d, width, height, l), width * height)
    ensures Inverse(Forward(d, width, height, l), width, height, l) == d
  {
    hide RowPass, ColumnPass, Pass.Apply, Shr, Pow2, Aligned;
    if l != 0 {
      AlignedBelow(width, l, l - 1);
      AlignedBelow(height, l, l - 1);
      PerfectReconstruction(d, width, height, l - 1);
      PassesFit(width, height, l - 1);
      LevelUndone(Forward(d, width, height, l - 1), width, height, l - 1);
    }
  }

  lemma {:induction false} LevelUndone(d: seq<Cell>, width: nat, height: nat, l: nat)
    requires RowPass(width, height, l).Rowwise(width * height)
    requires ColumnPass(width, height, l).Columnwise(width * height)
    requires OddUpTo(d, width * height)
    ensures var rows, columns := RowPass(width, height, l), ColumnPass(width, height, l);
            && OddUpTo(columns.Apply(rows.Apply(d)), width * height)
            && rows.Apply(columns.Apply(columns.Apply(rows.Apply(d)))) == d
  {
    hide RowPass, ColumnPass, Pass.Apply, Pass.Rowwise, Pass.Columnwise, OddUpTo;
    var rows, columns := RowPass(width, height, l), ColumnPass(width, height, l);
    PassUndone(rows, d, width * height);
    PassUndone(columns, rows.Apply(d), width * height);
  }

  /** Whatever odd-range coefficients a server sends, decoding keeps them in the odd range. */
  lemma {:induction false} InverseKeepsOdd(d: seq<Cell>, width: nat, height: nat, l: nat)
    requires width > 0 && Aligned(width, l) && Aligned(height, l) && OddUpTo(d, width * height)
    ensures OddUpTo(Inverse(d, width, height, l), width * height)
    decreases l
  {
    hide RowPass, ColumnPass, Pass.Apply, Pass.Rowwise, Pass.Columnwise, OddUpTo, Shr, Pow2, Aligned;
    if l != 0 {
      PassesFit(width, height, l - 1);
      var rows, columns := RowPass(width, height, l - 1), ColumnPass(width, height, l - 1);
      PassUndone(columns, d, width * height);
      PassUndone(rows, columns.Apply(d), width * height);
      AlignedBelow(width, l, l - 1);
      AlignedBelow(height, l, l - 1);
      InverseKeepsOdd(rows.Apply(columns.Apply(d)), width, height, l - 1);
    }
  }

  /** Harr on the three bytes of the cells at p and p + ofs. */
  method HarrPair(data: array<Cell>, p: nat, ofs: nat)
    requires ofs > 0 && p + ofs < data.Length
    modifies data
    ensures var (l, h) := PLHarrCells(old(data[p]), old(data[p + ofs]));
            data[..] == old(data[..])[p := l][p + ofs := h]
    ensures (data[p].b, data[p + ofs].b) == PLHarr(old(data[p].b), old(data[p + ofs].b))
    ensures (data[p].g, data[p + ofs].g) == PLHarr(old(data[p].g), old(data[p + ofs].g))
    ensures (data[p].r, data[p + ofs].r) == PLHarr(old(data[p].r), old(data[p + ofs].r))
    ensures data[p].pad == old(data[p].pad) && data[p + ofs].pad == old(data[p + ofs].pad)
  {
    var q0, q1 := Harr(data[p].b, data[p + ofs].b);
    data[p] := data[p].(b := q0);
    data[p + ofs] := data[p + ofs].(b := q1);
    q0, q1 := Harr(data[p].g, data[p + ofs].g);
    data[p] := data[p].(g := q0);
    data[p + ofs] := data[p + ofs].(g := q1);
    q0, q1 := Harr(data[p].r, data[p + ofs].r);
    data[p] := data[p].(r := q0);
    data[p + ofs] := data[p + ofs].(r := q1);
  }

  lemma {:induction false} ApplyNext(d: seq<Cell>, start: nat, step: nat, t: nat, ofs: nat)
    requires ofs > 0 && start + t * step + ofs < |d|
    ensures var prev, p := ApplyPairs(d, Line(start, step, t), ofs), start + t * step;
            var (l, h) := PLHarrCells(prev[p], prev[p + ofs]);
            ApplyPairs(d, Line(start, step, t + 1), ofs) == prev[p := l][p + ofs := h]
  {
    var ps := Line(start, step, t + 1);
    assert ps[..|ps| - 1] == Line(start, step, t);
  }

  /** The offset of place t of a line, in the source's stepping form. */
  lemma {:induction false} StepOver(t: nat, step: nat)
    ensures (t + 1) * step == t * step + step
  {
  }

  /** One line: `size` cells, skipPixel apart, starting at `start`. */
  method WaveletLevel(data: array<Cell>, start: nat, size: nat, l: nat, skipPixel: nat)
    requires skipPixel > 0
    requires Within(Line(start, 2 * (Pow2(l) * skipPixel), Shr(size, l + 1)), Pow2(l) * skipPixel, data.Length)
    modifies data
    ensures data[..] ==
            ApplyPairs(old(data[..]), Line(start, 2 * (Pow2(l) * skipPixel), Shr(size, l + 1)), Pow2(l) * skipPixel)
  {
    var ofs, n := Pow2(l) * skipPixel, Shr(size, l + 1);
    AtLeast(1, Pow2(l) * skipPixel);
    PairLoop(data, start, 2 * ofs, n, ofs);
  }

  method PairLoop(data: array<Cell>, start: nat, s: nat, n: nat, ofs: nat)
    requires ofs > 0 && s > 0 && Within(Line(start, s, n), ofs, data.Length)
    modifies data
    ensures data[..] == ApplyPairs(old(data[..]), Line(start, s, n), ofs)
  {
    hide ApplyPairs, Line;
    ghost var before := data[..];
    var pX0, end := start, start + n * s;
    ghost var t := 0;
    LineNone(before, start, s, ofs);
    while pX0 < end
      invariant t <= n && pX0 == start + t * s
      invariant data[..] == ApplyPairs(before, Line(start, s, t), ofs)
      decreases n - t
    {
      if t == n {
        assert false;
      }
      LineAt(start, s, n, t);
      ApplyNext(before, start, s, t, ofs);
      HarrPair(data, pX0, ofs);
      StepOver(t, s);
      pX0 := pX0 + s;
      t := t + 1;
    }
    if t < n {
      LastPlace(t, n, s);
    }
  }

  lemma {:induction false} LineNone(d: seq<Cell>, start: nat, step: nat, ofs: nat)
    ensures ApplyPairs(d, Line(start, step, 0), ofs) == d
  {
  }

  lemma {:induction false} LineWithin(p: Pass, n: nat, a: nat)
    requires (p.Rowwise(n) || p.Columnwise(n)) && a < p.count
    ensures Within(Line(a * p.across, 2 * p.ofs, p.pairs), p.ofs, n)
  {
    var ps := Line(a * p.across, 2 * p.ofs, p.pairs);
    forall t | 0 <= t < p.pairs
      ensures ps[t] + p.ofs < n
    {
      LineAt(a * p.across, 2 * p.ofs, p.pairs, t);
      p.Doubled(t);
      p.AddressInjective(n, a, 2 * t + 1, a, 2 * t + 1);
    }
  }

  lemma {:induction false} GridNext(d: seq<Cell>, p: Pass, a: nat)
    ensures ApplyPairs(d, Grid(0, p.across, a + 1, 2 * p.ofs, p.pairs), p.ofs) ==
            ApplyPairs(ApplyPairs(d, Grid(0, p.across, a, 2 * p.ofs, p.pairs), p.ofs),
                       Line(a * p.across, 2 * p.ofs, p.pairs), p.ofs)
    ensures ApplyPairs(d, Grid(0, p.across, 0, 2 * p.ofs, p.pairs), p.ofs) == d
  {
    ApplyPairsAdd(d, Grid(0, p.across, a, 2 * p.ofs, p.pairs), Line(a * p.across, 2 * p.ofs, p.pairs), p.ofs);
  }

  /** All lines of one direction at one level: `size` cells a line, skipPixel apart, with line
      starts `s` apart up to `end`. */
  method TransformLines(pBuf: array<Cell>, size: nat, l: nat, skipPixel: nat, s: nat, end: nat, ghost p: Pass,
                        ghost n: nat)
    requires p.Rowwise(n) || p.Columnwise(n)
    requires n <= pBuf.Length && skipPixel > 0 && s == p.across > 0 && end == p.count * p.across
    requires p.ofs == Pow2(l) * skipPixel && p.pairs == Shr(size, l + 1)
    modifies pBuf
    ensures pBuf[..] == p.Apply(old(pBuf[..]))
  {
    hide ApplyPairs, Grid, Line, Pow2, Shr;
    ghost var before := pBuf[..];
    var pTop := 0;
    ghost var a := 0;
    GridNext(before, p, 0);
    while pTop < end
      invariant a <= p.count && pTop == a * s
      invariant pBuf[..] == ApplyPairs(before, Grid(0, p.across, a, 2 * p.ofs, p.pairs), p.ofs)
      decreases p.count - a
    {
      if a == p.count {
        assert false;
      }
      LineWithin(p, n, a);
      GridNext(before, p, a);
      WaveletLevel(pBuf, pTop, size, l, skipPixel);
      StepOver(a, s);
      pTop := pTop + s;
      a := a + 1;
    }
    if a < p.count {
      LastPlace(a, p.count, s);
    }
  }

  method TransformRows(pBuf: array<Cell>, width: nat, height: nat, l: nat)
    requires width > 0 && Aligned(width, l + 1) && Aligned(height, l + 1) && width * height <= pBuf.Length
    modifies pBuf
    ensures pBuf[..] == RowPass(width, height, l).Apply(old(pBuf[..]))
  {
    PassesFit(width, height, l);
    AtLeast(width, Pow2(l));
    TransformLines(pBuf, width, l, 1, width * Pow2(l), width * height, RowPass(width, height, l), width * height);
  }

  method TransformColumns(pBuf: array<Cell>, width: nat, height: nat, l: nat)
    requires width > 0 && Aligned(width, l + 1) && Aligned(height, l + 1) && width * height <= pBuf.Length
    modifies pBuf
    ensures pBuf[..] == ColumnPass(width, height, l).Apply(old(pBuf[..]))
  {
    PassesFit(width, height, l);
    TransformLines(pBuf, height, l, width, Pow2(l), width, ColumnPass(width, height, l), width * height);
  }

  /** The forward transform, without the encoder's quantising filter. */
  method Wavelet(pBuf: array<Cell>, width: nat, height: nat, level: nat)
    requires width > 0 && Aligned(width, level) && Aligned(height, level) && width * height <= pBuf.Length
    modifies pBuf
    ensures pBuf[..] == Forward(old(pBuf[..]), width, height, level)
  {
    hide RowPass, ColumnPass, Pass.Apply, Shr, Pow2, Aligned;
    ghost var before := pBuf[..];
    var l := 0;
    while l < level
      invariant l <= level
      invariant pBuf[..] == Forward(before, width, height, l)
    {
      AlignedBelow(width, level, l + 1);
      AlignedBelow(height, level, l + 1);
      TransformRows(pBuf, width, height, l);
      TransformColumns(pBuf, width, height, l);
      l := l + 1;
    }
  }

  method InvWavelet(pBuf: array<Cell>, width: nat, height: nat, level: nat)
    requires width > 0 && Aligned(width, level) && Aligned(height, level) && width * height <= pBuf.Length
    modifies pBuf
    ensures pBuf[..] == Inverse(old(pBuf[..]), width, height, level)
  {
    hide RowPass, ColumnPass, Pass.Apply, Shr, Pow2, Aligned;
    ghost var result := Inverse(pBuf[..], width, height, level);
    var l: int := level - 1;
    while l >= 0
      invariant -1 <= l < level
      invariant Inverse(pBuf[..], width, height, l + 1) == result
    {
      AlignedBelow(width, level, l + 1);
      AlignedBelow(height, level, l + 1);
      TransformColumns(pBuf, width, height, l);
      TransformRows(pBuf, width, height, l);
      l := l - 1;
    }
  }
}
