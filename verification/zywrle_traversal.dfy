/** The order in which src/encodings/zywrletemplate.c transfers coefficients: level by level, and
    in each level the sub-bands 3, 2, 1 and (last level only) 0. The k-th coefficient visited
    travels in the k-th pixel of the tile. */
module ZywrleTraversal {
  import opened Area
  import opened Bits
  import opened ZywrleWavelet

  /** Sub-band r of level l, as ZYWRLE_TRANSFER_COEFF walks it. */
  function Band(w: nat, h: nat, l: nat, r: nat): seq<nat> {
    var s := 2 * Pow2(l);
    Grid((if r % 2 == 1 then Pow2(l) else 0) + (if r / 2 % 2 == 1 then Pow2(l) * w else 0),
         s * w, Shr(h, l + 1), s, Shr(w, l + 1))
  }

  /** Sub-bands 3, 2 and 1 of the first l levels. */
  function Details(w: nat, h: nat, l: nat): seq<nat> {
    if l == 0 then [] else Details(w, h, l - 1) + Band(w, h, l - 1, 3) + Band(w, h, l - 1, 2) + Band(w, h, l - 1, 1)
  }

  function Order(w: nat, h: nat, level: nat): seq<nat>
    requires level > 0
  {
    Details(w, h, level) + Band(w, h, level - 1, 0)
  }

  /** Sub-band r of level l holds the cells of the level's grid whose grid column has the parity
      of bit 0 of r and whose grid row that of bit 1, row by row. */
  lemma {:induction false} BandAt(w: nat, h: nat, l: nat, r: nat, u: nat, v: nat)
    requires r < 4 && u < Shr(w, l + 1) && v < Shr(h, l + 1)
    ensures |Band(w, h, l, r)| == Rows(Shr(w, l + 1), Shr(h, l + 1)) > Rows(Shr(w, l + 1), v) + u
    ensures Band(w, h, l, r)[Rows(Shr(w, l + 1), v) + u] ==
            CellAt(w, (2 * u + (if r == 1 || r == 3 then 1 else 0)) * Pow2(l),
                   (2 * v + (if r >= 2 then 1 else 0)) * Pow2(l))
  {
    hide Grid, Shr, Rows;
    var s, start := Pow2(l), (if r % 2 == 1 then Pow2(l) else 0) + (if r / 2 % 2 == 1 then Pow2(l) * w else 0);
    GridPlace(start, 2 * s * w, Shr(h, l + 1), 2 * s, Shr(w, l + 1), v, u);
    BandCell(w, s, u, v, if r == 1 || r == 3 then 1 else 0, if r >= 2 then 1 else 0);
  }

  lemma {:induction false} BandCell(w: nat, s: nat, u: nat, v: nat, e: nat, f: nat)
    ensures (e * s + f * (s * w)) + v * (2 * s * w) + u * (2 * s) == CellAt(w, (2 * u + e) * s, (2 * v + f) * s)
  {
    assert (2 * u + e) * s == u * (2 * s) + e * s;
    assert (2 * v + f) * s * w == v * (2 * s * w) + f * (s * w) by {
      assert (2 * v + f) * s == 2 * v * s + f * s;
      assert (2 * v * s + f * s) * w == 2 * v * s * w + f * s * w;
      assert v * (2 * s * w) == 2 * v * s * w;
      assert f * s * w == f * (s * w);
    }
  }

  lemma {:induction false} DetailsPrefix(w: nat, h: nat, l: nat, level: nat)
    requires l <= level
    ensures Details(w, h, l) <= Details(w, h, level)
  {
    hide Band;
    if l < level {
      DetailsPrefix(w, h, l, level - 1);
    }
  }

  lemma {:induction false} QuarterRows(m: nat, n: nat)
    ensures Rows(2 * m, 2 * n) == 4 * Rows(m, n)
  {
    RowsIsProduct(2 * m, 2 * n);
    RowsIsProduct(m, n);
  }

  /** The details of the first l levels are all cells but those of the grid that is left. */
  lemma {:induction false} DetailsLength(w: nat, h: nat, l: nat)
    requires Aligned(w, l) && Aligned(h, l)
    ensures |Details(w, h, l)| + Rows(Shr(w, l), Shr(h, l)) == Rows(w, h)
  {
    hide Shr, Aligned, Rows, Band;
    if l == 0 {
      NoShift(w);
      NoShift(h);
    } else {
      ShrHalves(w, l - 1);
      ShrHalves(h, l - 1);
      DetailsLength(w, h, l - 1);
      BandLength(w, h, l - 1, 1);
      BandLength(w, h, l - 1, 2);
      BandLength(w, h, l - 1, 3);
      QuarterRows(Shr(w, l), Shr(h, l));
    }
  }

  lemma {:induction false} BandLength(w: nat, h: nat, l: nat, r: nat)
    ensures |Band(w, h, l, r)| == Rows(Shr(w, l + 1), Shr(h, l + 1))
  {
  }

  lemma {:induction false} NoShift(v: nat)
    ensures Shr(v, 0) == v
  {
  }

  ghost predicate Visits(ps: seq<nat>, k: int, p: nat) {
    0 <= k < |ps| && ps[k] == p
  }

  lemma {:induction false} DetailsOneMore(w: nat, h: nat, l: nat)
    ensures Details(w, h, l + 1) == Details(w, h, l) + Band(w, h, l, 3) + Band(w, h, l, 2) + Band(w, h, l, 1)
  {
    hide Band;
  }

  /** Where the bands of level l are in the traversal. */
  lemma {:induction false} OrderBand(w: nat, h: nat, level: nat, l: nat, r: nat, k: nat)
    requires l < level && r < 4 && (r == 0 ==> l == level - 1) && k < |Band(w, h, l, r)|
    ensures Visits(Order(w, h, level),
                   |Details(w, h, l)| + (3 - r) * Rows(Shr(w, l + 1), Shr(h, l + 1)) + k, Band(w, h, l, r)[k])
  {
    hide Band, Shr, Rows, Details;
    DetailsPrefix(w, h, l + 1, level);
    BandLength(w, h, l, 1);
    BandLength(w, h, l, 2);
    BandLength(w, h, l, 3);
    var d3 := Details(w, h, l) + Band(w, h, l, 3);
    var d2 := d3 + Band(w, h, l, 2);
    DetailsOneMore(w, h, l);
    var i := |Details(w, h, l)| + (3 - r) * Rows(Shr(w, l + 1), Shr(h, l + 1)) + k;
    if r == 0 {
      assert Order(w, h, level)[i] == Band(w, h, l, 0)[i - |Details(w, h, level)|];
    } else {
      assert Order(w, h, level)[i] == Details(w, h, l + 1)[i] == (d2 + Band(w, h, l, 1))[i];
    }
  }

  /** The place in the traversal of every coefficient: first come all finer levels, in a level
      sub-bands 3, 2, 1 and 0, in a sub-band row after row. */
  lemma {:induction false} OrderAt(w: nat, h: nat, level: nat, l: nat, r: nat, u: nat, v: nat)
    requires Aligned(w, level) && Aligned(h, level) && l < level && r < 4 && (r == 0 ==> l == level - 1)
    requires u < Shr(w, l + 1) && v < Shr(h, l + 1)
    ensures var band := Rows(Shr(w, l + 1), Shr(h, l + 1));
            var k := Rows(w, h) - 4 * band + (3 - r) * band + Rows(Shr(w, l + 1), v) + u;
            Visits(Order(w, h, level), k, CellAt(w, (2 * u + (if r == 1 || r == 3 then 1 else 0)) * Pow2(l),
                                                 (2 * v + (if r >= 2 then 1 else 0)) * Pow2(l)))
  {
    hide Band, Shr, Aligned, Rows, CellAt, Pow2, Order, Visits;
    AlignedBelow(w, level, l + 1);
    AlignedBelow(h, level, l + 1);
    AlignedBelow(w, level, l);
    AlignedBelow(h, level, l);
    ShrHalves(w, l);
    ShrHalves(h, l);
    QuarterRows(Shr(w, l + 1), Shr(h, l + 1));
    DetailsLength(w, h, l);
    BandAt(w, h, l, r, u, v);
    OrderBand(w, h, level, l, r, Rows(Shr(w, l + 1), v) + u);
  }

  function Identity(n: nat): (ps: seq<nat>)
    ensures |ps| == n
  {
    seq(n, i => i)
  }

  /** The n-th place of a line. */
  function Place(start: nat, step: nat, n: nat): nat {
    start + n * step
  }

  lemma {:induction false} LineNext(start: nat, step: nat, n: nat)
    ensures Line(start, step, n + 1) == Line(start, step, n) + [Place(start, step, n)]
  {
  }

  lemma {:induction false} EvenOdd(start: nat, d: nat, n: nat)
    ensures Place(start, d, 2 * n) == Place(start, 2 * d, n)
    ensures Place(start, d, 2 * n + 1) == Place(start + d, 2 * d, n)
  {
    assert n * (2 * d) == (2 * n) * d;
    assert (2 * n + 1) * d == (2 * n) * d + d;
  }

  lemma {:induction false} PlaceShifted(start: nat, shift: nat, step: nat, n: nat)
    ensures Place(start + shift, step, n) == Place(start, step, n) + shift
  {
  }

  lemma {:induction false} DealTwo(a: seq<nat>, b: seq<nat>, c: seq<nat>, x: seq<nat>, y: seq<nat>)
    requires multiset(a) == multiset(b) + multiset(c)
    ensures multiset(a + x + y) == multiset(b + x) + multiset(c + y)
  {
  }

  /** Two more places of a line: one for the even places, one for the odd ones. */
  lemma {:induction false} LinePairNext(start: nat, d: nat, k: nat) returns (p: nat, q: nat)
    ensures Line(start, d, 2 * (k + 1)) == Line(start, d, 2 * k) + [p] + [q]
    ensures Line(start, 2 * d, k + 1) == Line(start, 2 * d, k) + [p]
    ensures Line(start + d, 2 * d, k + 1) == Line(start + d, 2 * d, k) + [q]
  {
    hide Line, Place;
    EvenOdd(start, d, k);
    p, q := Place(start, d, 2 * k), Place(start, d, 2 * k + 1);
    LineNext(start, d, 2 * k);
    LineNext(start, d, 2 * k + 1);
    LineNext(start, 2 * d, k);
    LineNext(start + d, 2 * d, k);
  }

  lemma {:induction false} LineSplit(start: nat, d: nat, n: nat)
    ensures multiset(Line(start, d, 2 * n)) ==
            multiset(Line(start, 2 * d, n)) + multiset(Line(start + d, 2 * d, n))
  {
    if n != 0 {
      var k := n - 1;
      LineSplit(start, d, k);
      var p, q := LinePairNext(start, d, k);
      DealTwo(Line(start, d, 2 * k), Line(start, 2 * d, k), Line(start + d, 2 * d, k), [p], [q]);
    }
  }

  /** A grid with every other line and every other place, beginning at `start`. */
  function Quarter(start: nat, across: nat, m: nat, d: nat, n: nat): seq<nat> {
    Grid(start, 2 * across, m, 2 * d, n)
  }

  lemma {:induction false} GridAppend(start: nat, across: nat, m: nat, step: nat, n: nat)
    ensures Grid(start, across, m + 1, step, n) ==
            Grid(start, across, m, step, n) + Line(Place(start, across, m), step, n)
  {
  }

  lemma {:induction false} QuarterNext(start: nat, across: nat, m: nat, d: nat, n: nat)
    ensures multiset(Quarter(start, across, m + 1, d, n)) ==
            multiset(Quarter(start, across, m, d, n)) + multiset(Line(Place(start, across, 2 * m), 2 * d, n))
  {
    hide Grid, Line, Place;
    GridAppend(start, 2 * across, m, 2 * d, n);
    EvenOdd(start, across, m);
  }

  /** Every other line and every other place: a grid is four grids of half the density. */
  lemma {:induction false} GridSplit(start: nat, across: nat, m: nat, d: nat, n: nat)
    ensures multiset(Grid(start, across, 2 * m, d, 2 * n)) ==
            multiset(Quarter(start, across, m, d, n)) + multiset(Quarter(start + d, across, m, d, n)) +
            multiset(Quarter(start + across, across, m, d, n)) +
            multiset(Quarter(start + d + across, across, m, d, n))
  {
    if m != 0 {
      var k := m - 1;
      GridSplit(start, across, k, d, n);
      GridSplitStep(start, across, k, d, n);
    }
  }

  lemma {:induction false} GridSplitStep(start: nat, across: nat, k: nat, d: nat, n: nat)
    requires multiset(Grid(start, across, 2 * k, d, 2 * n)) ==
             multiset(Quarter(start, across, k, d, n)) + multiset(Quarter(start + d, across, k, d, n)) +
             multiset(Quarter(start + across, across, k, d, n)) +
             multiset(Quarter(start + d + across, across, k, d, n))
    ensures multiset(Grid(start, across, 2 * (k + 1), d, 2 * n)) ==
            multiset(Quarter(start, across, k + 1, d, n)) + multiset(Quarter(start + d, across, k + 1, d, n)) +
            multiset(Quarter(start + across, across, k + 1, d, n)) +
            multiset(Quarter(start + d + across, across, k + 1, d, n))
  {
    hide Grid, Line, Quarter, Place;
    var even, odd := Place(start, across, 2 * k), Place(start, across, 2 * k + 1);
    GridAppend(start, across, 2 * k, d, 2 * n);
    GridAppend(start, across, 2 * k + 1, d, 2 * n);
    assert 2 * (k + 1) == 2 * k + 1 + 1;
    LineSplit(even, d, n);
    LineSplit(odd, d, n);
    QuarterNext(start, across, k, d, n);
    QuarterNext(start + d, across, k, d, n);
    QuarterNext(start + across, across, k, d, n);
    QuarterNext(start + d + across, across, k, d, n);
    QuarterPlaces(start, across, k, d);
  }

  /** Where the next line of each of the four quarters begins. */
  lemma {:induction false} QuarterPlaces(start: nat, across: nat, k: nat, d: nat)
    ensures var even, odd := Place(start, across, 2 * k), Place(start, across, 2 * k + 1);
            && Place(start + d, across, 2 * k) == even + d
            && Place(start + across, across, 2 * k) == odd && Place(start + d + across, across, 2 * k) == odd + d
  {
    hide Place;
    EvenOdd(start, across, k);
    EvenOdd(start + across, across, k);
    PlaceShifted(start, d, across, 2 * k);
    PlaceShifted(start + across, d, across, 2 * k);
    assert start + across + d == start + d + across;
  }

  lemma {:induction false} FullGrid(w: nat, h: nat)
    ensures Grid(0, w, h, 1, w) == Identity(Rows(w, h))
  {
    hide Grid, Rows;
    forall k | 0 <= k < Rows(w, h)
      ensures Grid(0, w, h, 1, w)[k] == k
    {
      var a, t := GridAt(0, w, h, 1, w, k);
      RowsIsProduct(w, a);
    }
  }

  /** The cells left at level l: every 2^l-th of every 2^l-th row. */
  function Rest(w: nat, h: nat, l: nat): seq<nat> {
    Grid(0, Pow2(l) * w, Shr(h, l), Pow2(l), Shr(w, l))
  }

  lemma {:induction false} RestSplits(w: nat, h: nat, l: nat)
    requires Aligned(w, l + 1) && Aligned(h, l + 1)
    ensures multiset(Rest(w, h, l)) ==
            multiset(Band(w, h, l, 3)) + multiset(Band(w, h, l, 2)) + multiset(Band(w, h, l, 1)) +
            multiset(Rest(w, h, l + 1))
    ensures Band(w, h, l, 0) == Rest(w, h, l + 1)
  {
    hide Grid, Shr;
    ShrHalves(w, l);
    ShrHalves(h, l);
    GridSplit(0, Pow2(l) * w, Shr(h, l + 1), Pow2(l), Shr(w, l + 1));
    assert 2 * (Pow2(l) * w) == (2 * Pow2(l)) * w;
  }

  lemma {:induction false} DetailsNext(w: nat, h: nat, l: nat)
    ensures multiset(Details(w, h, l + 1)) ==
            multiset(Details(w, h, l)) + multiset(Band(w, h, l, 3)) + multiset(Band(w, h, l, 2)) +
            multiset(Band(w, h, l, 1))
  {
    hide Band;
  }

  lemma {:induction false} NothingTaken(w: nat, h: nat)
    ensures Details(w, h, 0) == [] && Rest(w, h, 0) == Identity(Rows(w, h))
  {
    hide Grid, Identity, Rows;
    FullGrid(w, h);
  }

  lemma {:induction false} Exchange(all: multiset<nat>, taken: multiset<nat>, rest: multiset<nat>, bands: multiset<nat>,
                                    taken': multiset<nat>, rest': multiset<nat>)
    requires taken + rest == all && taken' == taken + bands && rest == bands + rest'
    ensures taken' + rest' == all
  {
  }

  /** After l levels of details, what is left is the grid of every 2^l-th cell. */
  lemma {:induction false} DetailsAndRest(w: nat, h: nat, l: nat)
    requires Aligned(w, l) && Aligned(h, l)
    ensures multiset(Details(w, h, l)) + multiset(Rest(w, h, l)) == multiset(Identity(Rows(w, h)))
  {
    hide Band, Rest, Aligned, Rows, Identity, Details;
    if l == 0 {
      NothingTaken(w, h);
    } else {
      AlignedBelow(w, l, l - 1);
      AlignedBelow(h, l, l - 1);
      DetailsAndRest(w, h, l - 1);
      RestSplits(w, h, l - 1);
      DetailsNext(w, h, l - 1);
      Exchange(multiset(Identity(Rows(w, h))), multiset(Details(w, h, l - 1)), multiset(Rest(w, h, l - 1)),
               multiset(Band(w, h, l - 1, 3)) + multiset(Band(w, h, l - 1, 2)) + multiset(Band(w, h, l - 1, 1)),
               multiset(Details(w, h, l)), multiset(Rest(w, h, l)));
    }
  }

  /** The traversal visits every coefficient of an aligned tile exactly once. */
  lemma {:induction false} OrderIsPermutation(w: nat, h: nat, level: nat)
    requires level > 0 && Aligned(w, level) && Aligned(h, level)
    ensures multiset(Order(w, h, level)) == multiset(Identity(Rows(w, h)))
    ensures |Order(w, h, level)| == Rows(w, h)
  {
    hide Band, Rest, Aligned, Rows, Identity, Details;
    DetailsAndRest(w, h, level);
    RestSplits(w, h, level - 1);
    assert |Order(w, h, level)| == |multiset(Order(w, h, level))|;
    assert |Identity(Rows(w, h))| == |multiset(Identity(Rows(w, h)))|;
  }
}
