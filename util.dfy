/**
 * Grid helpers of gemstone/util.py.  A grid is a list of rows; in this model
 * it is a sequence of sequences, so a copy is a value of its own.
 */
module Util {

  /** `g` has `h` rows, each of `w` cells. */
  predicate IsRect<T>(g: seq<seq<T>>, h: int, w: int)
  {
    |g| == h && forall r :: 0 <= r < |g| ==> |g[r]| == w
  }

  /** A grid of `h` rows of `w` cells, all equal to `v`. */
  function Uniform<T>(h: nat, w: nat, v: T): (g: seq<seq<T>>)
    ensures IsRect(g, h, w)
    ensures forall r, c :: 0 <= r < h && 0 <= c < w ==> g[r][c] == v
  {
    seq(h, _ => seq(w, _ => v))
  }

  /** The grid with the single cell (r, c) replaced by `v`. */
  function SetCell<T>(g: seq<seq<T>>, r: nat, c: nat, v: T): (g': seq<seq<T>>)
    requires r < |g| && c < |g[r]|
    ensures |g'| == |g| && forall i :: 0 <= i < |g| ==> |g'[i]| == |g[i]|
    ensures g'[r][c] == v
    ensures forall i, j :: 0 <= i < |g| && 0 <= j < |g[i]| && (i, j) != (r, c) ==> g'[i][j] == g[i][j]
  {
    g[r := g[r][c := v]]
  }

  /** clone_grid: a row-by-row copy. */
  function CloneGrid<T>(g: seq<seq<T>>): (g': seq<seq<T>>)
    ensures |g'| == |g|
    ensures forall i :: 0 <= i < |g| ==> |g'[i]| == |g[i]| && forall j :: 0 <= j < |g[i]| ==> g'[i][j] == g[i][j]
  {
    seq(|g|, i requires 0 <= i < |g| => g[i][..])
  }

  /** A clone holds exactly what its original holds. */
  lemma CloneGridEqual<T>(g: seq<seq<T>>)
    ensures CloneGrid(g) == g
  {
    var g' := CloneGrid(g);
    assert forall i | 0 <= i < |g| :: g'[i] == g[i];
  }

  /** Writing one cell of a clone changes that cell of the clone only; the original is left as it was. */
  lemma CloneIsolation<T>(g: seq<seq<T>>, r: nat, c: nat, v: T)
    requires r < |g| && c < |g[r]|
    ensures var copy := SetCell(CloneGrid(g), r, c, v);
      copy[r][c] == v &&
      forall i, j :: 0 <= i < |g| && 0 <= j < |g[i]| && (i, j) != (r, c) ==> copy[i][j] == g[i][j]
  {
  }

  /** Python's str.endswith. */
  predicate EndsWith(s: string, suffix: string)
  {
    |suffix| <= |s| && s[|s| - |suffix|..] == suffix
  }

  /** within_rect: the half-open rectangle test on (x, y) against (rx, ry, rw, rh). */
  predicate WithinRect(x: int, y: int, rx: int, ry: int, rw: int, rh: int)
  {
    rx <= x < rx + rw && ry <= y < ry + rh
  }

  /** A rectangle with no positive width or no positive height contains no point. */
  lemma EmptyRectContainsNothing(x: int, y: int, rx: int, ry: int, rw: int, rh: int)
    requires rw <= 0 || rh <= 0
    ensures !WithinRect(x, y, rx, ry, rw, rh)
  {
  }

  /** A rectangle of positive size contains its origin and excludes its right and bottom edges. */
  lemma RectIsHalfOpen(rx: int, ry: int, rw: int, rh: int, y: int)
    requires rw > 0 && rh > 0
    ensures WithinRect(rx, ry, rx, ry, rw, rh)
    ensures !WithinRect(rx + rw, y, rx, ry, rw, rh)
    ensures !WithinRect(rx, ry + rh, rx, ry, rw, rh)
  {
  }
}
