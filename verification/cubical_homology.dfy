/**
 * The front end of `CubicalHomology(cubes)`: from a list of top-dimensional cubes,
 * each given by its minimum vertex, it infers the space dimension, the bounding
 * grid, the grid extended by a fringe, the shape code of top cells, the set of
 * indices of the listed cells, and the 0/1 grading handed to the homology engine.
 * The engine itself is represented only by its two queries, `cell_index` and
 * `topstar`, on the complex built over the extended grid.
 */
module CubicalHomology {
  import opened Wrappers

  /** A top cell, given by the coordinates of its minimum vertex. */
  type Cube = seq<int>

  /** `cubes[0]` or `c[d]` indexed out of range. */
  datatype HomologyError = IndexError

  /**
   * The two queries made of the engine's cubical complex built over `grid`:
   * the index of the cell at `cube` with shape code `shape`, and the cells of the
   * top star of a cell.
   */
  datatype Engine = Engine(cellIndex: (seq<int>, Cube, nat) -> int, topstar: (seq<int>, int) -> seq<int>)

  /** Everything computed before the graded complex is built. */
  datatype Setup = Setup(dim: nat, gridSize: seq<int>, gridSizeExt: seq<int>, shape: nat, cells: set<int>)

  /** Every cube has at least `n` coordinates. */
  ghost predicate LongEnough(cubes: seq<Cube>, n: nat) {
    forall c :: c in cubes ==> |c| >= n
  }

  /** The largest coordinate any cube has on axis `d`. */
  function MaxCoord(cubes: seq<Cube>, d: nat): (m: int)
    requires |cubes| >= 1 && LongEnough(cubes, d + 1)
    ensures forall c :: c in cubes ==> c[d] <= m
    ensures exists c :: c in cubes && c[d] == m
  {
    if |cubes| == 1 then cubes[0][d]
    else
      var rest := MaxCoord(cubes[1..], d);
      assert forall c :: c in cubes[1..] ==> c in cubes;
      if cubes[0][d] >= rest then cubes[0][d] else rest
  }

  /** Some cube has a coordinate on axis `d`, and `size` is one more than it. */
  ghost predicate SomeCubeReaches(cubes: seq<Cube>, d: nat, size: int) {
    exists c :: c in cubes && |c| > d && size == c[d] + 1
  }

  /** The per-axis grid size: one more than the largest coordinate on that axis. */
  function GridSize(cubes: seq<Cube>, dim: nat): (gs: seq<int>)
    requires |cubes| >= 1 && LongEnough(cubes, dim)
    ensures |gs| == dim
    ensures forall d, c :: 0 <= d < dim && c in cubes ==> c[d] < gs[d]
    ensures forall d :: 0 <= d < dim ==> SomeCubeReaches(cubes, d, gs[d])
  {
    seq(dim, d requires 0 <= d < dim => MaxCoord(cubes, d) + 1)
  }

  /**
   * The grid size with a fringe of one cell added on each side of every axis, built
   * axis by axis.
   */
  function GridSizeExt(gs: seq<int>): (ext: seq<int>)
    ensures |ext| == |gs|
    ensures forall d :: 0 <= d < |gs| ==> ext[d] == gs[d] + 2
  {
    if gs == [] then [] else GridSizeExt(gs[..|gs| - 1]) + [gs[|gs| - 1] + 2]
  }

  function Pow2(n: nat): (p: nat)
    ensures p >= 1
  {
    if n == 0 then 1 else 2 * Pow2(n - 1)
  }

  /** The shape code of a top-dimensional cell: one less than two to the power `dim`. */
  function TopShape(dim: nat): (s: nat)
    ensures s < Pow2(dim)
  {
    Pow2(dim) - 1
  }

  /** Bit `i` of the non-negative integer `n`. */
  function Bit(n: nat, i: nat): (b: nat)
    ensures b <= 1
  {
    if i == 0 then n % 2 else Bit(n / 2, i - 1)
  }

  /** The shape code of a top cell has exactly the low `dim` bits set, one per axis. */
  lemma {:induction false} TopShapeBits(dim: nat, i: nat)
    ensures Bit(TopShape(dim), i) == if i < dim then 1 else 0
  {
    if dim == 0 {
      ZeroBits(i);
    } else {
      assert TopShape(dim) == 2 * TopShape(dim - 1) + 1;
      if i > 0 {
        assert TopShape(dim) / 2 == TopShape(dim - 1);
        TopShapeBits(dim - 1, i - 1);
      }
    }
  }

  lemma {:induction false} ZeroBits(i: nat)
    ensures Bit(0, i) == 0
  {
    if i > 0 {
      ZeroBits(i - 1);
    }
  }

  /**
   * The indices of the listed cells, collected cube by cube: the image of the cubes under
   * the engine's cell index, with at most one index per cube.
   */
  function CellsIndices(e: Engine, grid: seq<int>, cubes: seq<Cube>, shape: nat): (cells: set<int>)
    ensures forall x :: x in cells <==> exists c :: c in cubes && x == e.cellIndex(grid, c, shape)
    ensures |cells| <= |cubes|
  {
    if cubes == [] then {}
    else
      var rest := CellsIndices(e, grid, cubes[1..], shape);
      assert forall c :: c in cubes <==> c == cubes[0] || c in cubes[1..];
      {e.cellIndex(grid, cubes[0], shape)} + rest
  }

  /** Whether some cell of `star` is listed, scanning `star` from the front. */
  function AnyListed(star: seq<int>, cells: set<int>): (b: bool)
    ensures b <==> exists x :: x in star && x in cells
  {
    if star == [] then false
    else
      assert forall x :: x in star <==> x == star[0] || x in star[1..];
      star[0] in cells || AnyListed(star[1..], cells)
  }

  /** The grading closure: 0 when some cell of the top star of `cell` is listed, else 1. */
  function Grading(e: Engine, grid: seq<int>, cells: set<int>, cell: int): (g: int)
    ensures g == 0 || g == 1
    ensures g == 0 <==> exists x :: x in e.topstar(grid, cell) && x in cells
  {
    if AnyListed(e.topstar(grid, cell), cells) then 0 else 1
  }

  /**
   * Everything `CubicalHomology(cubes)` computes before it builds the graded
   * complex; `IndexError` when `cubes` is empty or a cube has fewer coordinates
   * than the first.
   */
  function Prepare(e: Engine, cubes: seq<Cube>): (r: Result<Setup, HomologyError>)
    ensures r.Err? <==> |cubes| == 0 || exists c :: c in cubes && |c| < |cubes[0]|
    ensures r.Err? ==> r.error == IndexError
    ensures r.Ok? ==>
      && r.value.dim == |cubes[0]|
      && |r.value.gridSize| == r.value.dim && |r.value.gridSizeExt| == r.value.dim
      && (forall d, c :: 0 <= d < r.value.dim && c in cubes ==> c[d] < r.value.gridSize[d])
      && (forall d :: 0 <= d < r.value.dim ==> SomeCubeReaches(cubes, d, r.value.gridSize[d]))
      && (forall d :: 0 <= d < r.value.dim ==> r.value.gridSizeExt[d] == r.value.gridSize[d] + 2)
      && r.value.shape + 1 == Pow2(r.value.dim)
      && (forall x :: x in r.value.cells <==> exists c :: c in cubes && x == e.cellIndex(r.value.gridSizeExt, c, r.value.shape))
  {
    if |cubes| == 0 then Err(IndexError)
    else
      var dim := |cubes[0]|;
      if exists c :: c in cubes && |c| < dim then Err(IndexError)
      else
        var gs := GridSize(cubes, dim);
        var ext := GridSizeExt(gs);
        var shape := TopShape(dim);
        Ok(Setup(dim, gs, ext, shape, CellsIndices(e, ext, cubes, shape)))
  }

  /** The largest coordinate depends only on which cubes are listed, not on order or repetition. */
  lemma MaxCoordSameCubes(cubes1: seq<Cube>, cubes2: seq<Cube>, d: nat)
    requires |cubes1| >= 1 && |cubes2| >= 1 && forall c :: c in cubes1 <==> c in cubes2
    requires LongEnough(cubes1, d + 1)
    ensures LongEnough(cubes2, d + 1)
    ensures MaxCoord(cubes1, d) == MaxCoord(cubes2, d)
  {
    var m1 := MaxCoord(cubes1, d);
    var m2 := MaxCoord(cubes2, d);
    var c1 :| c1 in cubes1 && c1[d] == m1;
    var c2 :| c2 in cubes2 && c2[d] == m2;
    assert c1 in cubes2 && c2 in cubes1;
  }

  /**
   * Listing the same cubes in another order, or with repetitions, changes nothing
   * as long as the first cube has the same number of coordinates.
   */
  lemma PrepareSameCubes(e: Engine, cubes1: seq<Cube>, cubes2: seq<Cube>)
    requires forall c :: c in cubes1 <==> c in cubes2
    requires |cubes1| >= 1 && |cubes2| >= 1 && |cubes1[0]| == |cubes2[0]|
    ensures Prepare(e, cubes1) == Prepare(e, cubes2)
  {
    var dim := |cubes1[0]|;
    if !exists c :: c in cubes1 && |c| < dim {
      var gs1, gs2 := GridSize(cubes1, dim), GridSize(cubes2, dim);
      forall d | 0 <= d < dim ensures gs1[d] == gs2[d] {
        MaxCoordSameCubes(cubes1, cubes2, d);
      }
      assert gs1 == gs2;
      var ext, shape := GridSizeExt(gs1), TopShape(dim);
      CellsIndicesSameCubes(e, ext, cubes1, cubes2, shape);
    }
  }

  /** The listed cells depend only on which cubes are listed, not on order or repetition. */
  lemma CellsIndicesSameCubes(e: Engine, grid: seq<int>, cubes1: seq<Cube>, cubes2: seq<Cube>, shape: nat)
    requires forall c :: c in cubes1 <==> c in cubes2
    ensures CellsIndices(e, grid, cubes1, shape) == CellsIndices(e, grid, cubes2, shape)
  {
    var s1, s2 := CellsIndices(e, grid, cubes1, shape), CellsIndices(e, grid, cubes2, shape);
    forall x | x in s1 ensures x in s2 {
      var c :| c in cubes1 && x == e.cellIndex(grid, c, shape);
      assert c in cubes2;
    }
    forall x | x in s2 ensures x in s1 {
      var c :| c in cubes2 && x == e.cellIndex(grid, c, shape);
      assert c in cubes1;
    }
  }

  /**
   * The first cube fixes the dimension, so with cubes of different lengths the order
   * matters: `[[1, 2], [3]]` fails on the short second cube, `[[3], [1, 2]]` does not.
   */
  lemma FirstCubeFixesDimension(e: Engine)
    ensures Prepare(e, [[1, 2], [3]]).Err?
    ensures Prepare(e, [[3], [1, 2]]).Ok? && Prepare(e, [[3], [1, 2]]).value.dim == 1
  {
    assert [3] in [[1, 2], [3]];
  }

  /** Listing more cells can only lower a grade from 1 to 0. */
  lemma GradingMonotone(e: Engine, grid: seq<int>, cells1: set<int>, cells2: set<int>, cell: int)
    requires cells1 <= cells2
    ensures Grading(e, grid, cells2, cell) <= Grading(e, grid, cells1, cell)
  {
  }

  /**
   * When the engine lists every cell in its own top star, each listed cube's cell is
   * graded 0.
   */
  lemma ListedCubesGradedZero(e: Engine, cubes: seq<Cube>, c: Cube)
    requires Prepare(e, cubes).Ok? && c in cubes
    requires var s := Prepare(e, cubes).value;
      e.cellIndex(s.gridSizeExt, c, s.shape) in e.topstar(s.gridSizeExt, e.cellIndex(s.gridSizeExt, c, s.shape))
    ensures var s := Prepare(e, cubes).value;
      Grading(e, s.gridSizeExt, s.cells, e.cellIndex(s.gridSizeExt, c, s.shape)) == 0
  {
  }
}
