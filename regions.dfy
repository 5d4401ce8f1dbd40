/**
 * The specification shared by the two flood fills (gemstone/editor.py and
 * gemstone/sprite_creator.py): the 4-connected region of `target` cells that
 * contains a start cell, and the grid in which exactly that region is recoloured.
 */
module Regions {
  import opened Util

  /** A cell position; `row` indexes the outer list, `col` a row. */
  datatype Pos = Pos(row: int, col: int)

  /** The four neighbours a fill visits: right, left, down, up. */
  predicate Adjacent(p: Pos, q: Pos)
  {
    q == Pos(p.row, p.col + 1) || q == Pos(p.row, p.col - 1) ||
    q == Pos(p.row + 1, p.col) || q == Pos(p.row - 1, p.col)
  }

  predicate InBounds<T>(g: seq<seq<T>>, p: Pos)
  {
    0 <= p.row < |g| && 0 <= p.col < |g[p.row]|
  }

  /** `p` is a cell of `g` that holds `target`. */
  predicate Eligible<T(==)>(g: seq<seq<T>>, target: T, p: Pos)
  {
    InBounds(g, p) && g[p.row][p.col] == target
  }

  /** Every cell of the grid, as a finite set. */
  ghost function Cells<T>(g: seq<seq<T>>): (cs: set<Pos>)
    ensures forall p :: p in cs <==> InBounds(g, p)
  {
    set r, c | 0 <= r < |g| && 0 <= c < |g[r]| :: Pos(r, c)
  }

  /** A non-empty walk through `target` cells, each step to a neighbour. */
  ghost predicate IsPath<T>(g: seq<seq<T>>, target: T, path: seq<Pos>)
  {
    |path| > 0 &&
    (forall i :: 0 <= i < |path| ==> Eligible(g, target, path[i])) &&
    (forall i :: 1 <= i < |path| ==> Adjacent(path[i - 1], path[i]))
  }

  /** `p` lies in the 4-connected region of `target` cells that contains `start`. */
  ghost predicate InRegion<T>(g: seq<seq<T>>, target: T, start: Pos, p: Pos)
  {
    exists path {:trigger IsPath(g, target, path)} :: IsPath(g, target, path) && path[0] == start && path[|path| - 1] == p
  }

  /** `p` is the start or a neighbour of a cell in `done`: what a fill may have pending. */
  predicate Touches(start: Pos, done: set<Pos>, p: Pos)
  {
    p == start ||
    Pos(p.row, p.col - 1) in done || Pos(p.row, p.col + 1) in done ||
    Pos(p.row - 1, p.col) in done || Pos(p.row + 1, p.col) in done
  }

  /** No `target` cell next to a member of `done` lies outside `done`. */
  ghost predicate Closed<T>(g: seq<seq<T>>, target: T, done: set<Pos>)
  {
    forall q, n {:trigger Adjacent(q, n)} :: q in done && Adjacent(q, n) && Eligible(g, target, n) ==> n in done
  }

  /** The outcome both fills are proved to produce: the region of `start` recoloured, every other cell kept. */
  ghost function Recoloured<T>(g: seq<seq<T>>, target: T, repl: T, start: Pos): (g': seq<seq<T>>)
    ensures |g'| == |g| && forall r :: 0 <= r < |g| ==> |g'[r]| == |g[r]|
  {
    seq(|g|, r requires 0 <= r < |g| =>
      seq(|g[r]|, c requires 0 <= c < |g[r]| =>
        if InRegion(g, target, start, Pos(r, c)) then repl else g[r][c]))
  }

  /** A region contains its start exactly when the start holds `target`, and holds only `target` cells. */
  lemma RegionCells<T>(g: seq<seq<T>>, target: T, start: Pos, p: Pos)
    ensures InRegion(g, target, start, p) ==> Eligible(g, target, p) && Eligible(g, target, start)
    ensures Eligible(g, target, start) ==> InRegion(g, target, start, start)
  {
    if InRegion(g, target, start, p) {
      var path :| IsPath(g, target, path) && path[0] == start && path[|path| - 1] == p;
      assert Eligible(g, target, path[|path| - 1]);
      assert Eligible(g, target, path[0]);
    }
    if Eligible(g, target, start) {
      assert IsPath(g, target, [start]);
    }
  }

  /** A `target` neighbour of a region cell is in the region. */
  lemma RegionStep<T>(g: seq<seq<T>>, target: T, start: Pos, q: Pos, p: Pos)
    requires InRegion(g, target, start, q) && Adjacent(q, p) && Eligible(g, target, p)
    ensures InRegion(g, target, start, p)
  {
    var path :| IsPath(g, target, path) && path[0] == start && path[|path| - 1] == q;
    var path' := path + [p];
    assert path'[|path'| - 1] == p && path'[0] == start;
    assert IsPath(g, target, path');
  }

  /** A pending cell that holds `target`, next to the start or to region cells, belongs to the region. */
  lemma TouchingEligibleInRegion<T>(g: seq<seq<T>>, target: T, start: Pos, done: set<Pos>, p: Pos)
    requires forall q :: q in done ==> InRegion(g, target, start, q)
    requires Touches(start, done, p) && Eligible(g, target, p)
    ensures InRegion(g, target, start, p)
  {
    if p == start {
      RegionCells(g, target, start, p);
    } else {
      var q :| q in done && Adjacent(q, p);
      RegionStep(g, target, start, q, p);
    }
  }

  lemma {:induction false} PathStaysInClosed<T>(g: seq<seq<T>>, target: T, path: seq<Pos>, done: set<Pos>)
    requires IsPath(g, target, path) && path[0] in done && Closed(g, target, done)
    ensures path[|path| - 1] in done
    decreases |path|
  {
    if |path| > 1 {
      var prefix := path[..|path| - 1];
      assert IsPath(g, target, prefix);
      PathStaysInClosed(g, target, prefix, done);
      assert Adjacent(path[|path| - 2], path[|path| - 1]);
      assert Eligible(g, target, path[|path| - 1]);
    }
  }

  /**
   * Completeness of a fill: a closed set that holds the start (whenever the
   * start holds `target`) contains the whole region.
   */
  lemma RegionWithinClosed<T>(g: seq<seq<T>>, target: T, start: Pos, done: set<Pos>, p: Pos)
    requires Closed(g, target, done)
    requires Eligible(g, target, start) ==> start in done
    requires InRegion(g, target, start, p)
    ensures p in done
  {
    var path :| IsPath(g, target, path) && path[0] == start && path[|path| - 1] == p;
    assert Eligible(g, target, path[0]);
    PathStaysInClosed(g, target, path, done);
  }

  /** Recolouring a region with its own colour changes nothing. */
  lemma RecolourSameColour<T>(g: seq<seq<T>>, target: T, start: Pos)
    ensures Recoloured(g, target, target, start) == g
  {
    var g' := Recoloured(g, target, target, start);
    forall r, c | 0 <= r < |g| && 0 <= c < |g[r]|
      ensures g'[r][c] == g[r][c]
    {
      RegionCells(g, target, start, Pos(r, c));
    }
    assert forall r | 0 <= r < |g| :: g'[r] == g[r];
  }

  /** The start's region is empty when the start does not hold `target`: nothing is recoloured. */
  lemma RecolourIneligibleStart<T>(g: seq<seq<T>>, target: T, repl: T, start: Pos)
    requires !Eligible(g, target, start)
    ensures Recoloured(g, target, repl, start) == g
  {
    var g' := Recoloured(g, target, repl, start);
    forall r, c | 0 <= r < |g| && 0 <= c < |g[r]|
      ensures g'[r][c] == g[r][c]
    {
      RegionCells(g, target, start, Pos(r, c));
    }
    assert forall r | 0 <= r < |g| :: g'[r] == g[r];
  }
  /**
   * What a fill keeps true while it runs, for a fill of `g0` that has so far
   * recoloured the cells in `done` and still has `pending` cells to visit:
   * the grid differs from `g0` exactly on `done`, `done` lies in the region,
   * every pending cell is the start or next to the region, and every `target`
   * neighbour of `done` is done or pending.
   */
  ghost predicate FillInvariant<T>(g0: seq<seq<T>>, target: T, repl: T, start: Pos,
                                   grid: seq<seq<T>>, done: set<Pos>, pending: seq<Pos>)
  {
    |grid| == |g0| && (forall r :: 0 <= r < |g0| ==> |grid[r]| == |g0[r]|) &&
    done <= Cells(g0) &&
    (forall p :: p in done ==> InRegion(g0, target, start, p)) &&
    (forall r, c {:trigger grid[r][c]} :: 0 <= r < |g0| && 0 <= c < |g0[r]| ==>
      grid[r][c] == if Pos(r, c) in done then repl else g0[r][c]) &&
    (forall i :: 0 <= i < |pending| ==> Touches(start, done, pending[i])) &&
    (Eligible(g0, target, start) ==> start in done || start in pending) &&
    (forall q, n {:trigger Adjacent(q, n)} :: q in done && Adjacent(q, n) && Eligible(g0, target, n) ==> n in done || n in pending)
  }

  /** A fill starts with nothing done and only the start cell pending. */
  lemma FillStart<T>(g0: seq<seq<T>>, target: T, repl: T, start: Pos)
    ensures FillInvariant(g0, target, repl, start, g0, {}, [start])
  {
  }

  /** The pending list after removing `p` from its back (a stack) or its front (a queue). */
  predicate Popped(pending: seq<Pos>, p: Pos, rest: seq<Pos>)
  {
    pending == rest + [p] || pending == [p] + rest
  }

  /** Taking the last element off a non-empty list, as a stack pop does. */
  lemma PopBack(s: seq<Pos>)
    requires s != []
    ensures Popped(s, s[|s| - 1], s[..|s| - 1])
  {
    assert s == s[..|s| - 1] + [s[|s| - 1]];
  }

  /** Taking the first element off a non-empty list, as a queue popleft does. */
  lemma PopFront(s: seq<Pos>)
    requires s != []
    ensures Popped(s, s[0], s[1..])
  {
    assert s == [s[0]] + s[1..];
  }

  lemma PoppedMembers(pending: seq<Pos>, p: Pos, rest: seq<Pos>)
    requires Popped(pending, p, rest)
    ensures p in pending
    ensures forall n :: n in pending ==> n == p || n in rest
    ensures forall i :: 0 <= i < |rest| ==> rest[i] in pending
  {
  }

  /** The four neighbours of `p`, in the order editor.py pushes them: right, left, down, up. */
  function FourNeighbours(p: Pos): (ns: seq<Pos>)
    ensures |ns| == 4 && forall i :: 0 <= i < 4 ==> Adjacent(p, ns[i])
    ensures forall q :: Adjacent(p, q) ==> q in ns
  {
    [Pos(p.row, p.col + 1), Pos(p.row, p.col - 1), Pos(p.row + 1, p.col), Pos(p.row - 1, p.col)]
  }

  /** Each neighbour of `p` that could join the region is queued in `pushed` or already done. */
  ghost predicate NeighboursCovered<T>(g0: seq<seq<T>>, target: T, p: Pos, pushed: seq<Pos>, done: set<Pos>)
  {
    forall q :: Adjacent(p, q) && Eligible(g0, target, q) ==> q in pushed || q in done
  }

  /**
   * Dropping a pending cell `p` that is off the grid or no longer holds
   * `target` keeps the invariant.
   */
  lemma FillSkip<T>(g0: seq<seq<T>>, target: T, repl: T, start: Pos,
                    grid: seq<seq<T>>, done: set<Pos>, pending: seq<Pos>, p: Pos, rest: seq<Pos>)
    requires FillInvariant(g0, target, repl, start, grid, done, pending)
    requires target != repl && Popped(pending, p, rest)
    requires p in done || !InBounds(g0, p) || grid[p.row][p.col] != target
    ensures FillInvariant(g0, target, repl, start, grid, done, rest)
  {
    PoppedMembers(pending, p, rest);
    assert !Eligible(g0, target, p) || p in done;
    forall i | 0 <= i < |rest|
      ensures Touches(start, done, rest[i])
    {
      var k :| 0 <= k < |pending| && pending[k] == rest[i];
    }
  }

  /** The pending cell a fill is about to recolour is a not-yet-done cell of the region. */
  lemma PaintedCellInRegion<T>(g0: seq<seq<T>>, target: T, repl: T, start: Pos,
                               grid: seq<seq<T>>, done: set<Pos>, pending: seq<Pos>, p: Pos)
    requires FillInvariant(g0, target, repl, start, grid, done, pending)
    requires target != repl && p in pending && InBounds(g0, p) && grid[p.row][p.col] == target
    ensures p !in done && p in Cells(g0) && Eligible(g0, target, p)
    ensures InRegion(g0, target, start, p)
    ensures |Cells(g0) - (done + {p})| < |Cells(g0) - done|
  {
    var k :| 0 <= k < |pending| && pending[k] == p;
    assert Touches(start, done, p);
    TouchingEligibleInRegion(g0, target, start, done, p);
    assert (Cells(g0) - (done + {p})) == (Cells(g0) - done) - {p};
  }

  lemma PendingStaysTouching(start: Pos, done: set<Pos>, pending: seq<Pos>, p: Pos, rest: seq<Pos>, pushed: seq<Pos>)
    requires forall i :: 0 <= i < |pending| ==> Touches(start, done, pending[i])
    requires Popped(pending, p, rest)
    requires forall i :: 0 <= i < |pushed| ==> Adjacent(p, pushed[i])
    ensures forall i :: 0 <= i < |rest + pushed| ==> Touches(start, done + {p}, (rest + pushed)[i])
  {
    PoppedMembers(pending, p, rest);
    forall i | 0 <= i < |rest + pushed|
      ensures Touches(start, done + {p}, (rest + pushed)[i])
    {
      if i < |rest| {
        var j :| 0 <= j < |pending| && pending[j] == rest[i];
        assert Touches(start, done, pending[j]);
      } else {
        assert Adjacent(p, pushed[i - |rest|]);
      }
    }
  }

  lemma FrontierAfterPaint<T>(g0: seq<seq<T>>, target: T, done: set<Pos>,
                              pending: seq<Pos>, p: Pos, rest: seq<Pos>, pushed: seq<Pos>)
    requires forall q, n {:trigger Adjacent(q, n)} :: q in done && Adjacent(q, n) && Eligible(g0, target, n) ==> n in done || n in pending
    requires Popped(pending, p, rest) && NeighboursCovered(g0, target, p, pushed, done)
    ensures forall q, n {:trigger Adjacent(q, n)} :: q in done + {p} && Adjacent(q, n) && Eligible(g0, target, n) ==>
      n in done + {p} || n in rest + pushed
  {
    PoppedMembers(pending, p, rest);
    forall q, n | q in done + {p} && Adjacent(q, n) && Eligible(g0, target, n)
      ensures n in done + {p} || n in rest + pushed
    {
      if q == p {
        assert n in pushed || n in done;
      } else if n !in done + {p} {
        assert n in rest;
      }
    }
  }

  /**
   * Recolouring a pending cell `p` that still holds `target`, and queueing
   * `pushed` (neighbours of `p`, covering every neighbour not done), keeps
   * the invariant and grows `done` by one cell of the grid.
   */
  lemma FillPaint<T>(g0: seq<seq<T>>, target: T, repl: T, start: Pos,
                     grid: seq<seq<T>>, done: set<Pos>, pending: seq<Pos>, p: Pos, rest: seq<Pos>, pushed: seq<Pos>)
    requires FillInvariant(g0, target, repl, start, grid, done, pending)
    requires target != repl && Popped(pending, p, rest)
    requires InBounds(g0, p) && grid[p.row][p.col] == target
    requires forall i :: 0 <= i < |pushed| ==> Adjacent(p, pushed[i])
    requires NeighboursCovered(g0, target, p, pushed, done + {p})
    ensures p !in done && p in Cells(g0)
    ensures |Cells(g0) - (done + {p})| < |Cells(g0) - done|
    ensures FillInvariant(g0, target, repl, start, SetCell(grid, p.row, p.col, repl), done + {p}, rest + pushed)
  {
    PoppedMembers(pending, p, rest);
    PaintedCellInRegion(g0, target, repl, start, grid, done, pending, p);
    PendingStaysTouching(start, done, pending, p, rest, pushed);
    assert NeighboursCovered(g0, target, p, pushed, done);
    FrontierAfterPaint(g0, target, done, pending, p, rest, pushed);
  }

  /** A fill whose pending list is empty has produced exactly the recoloured region. */
  lemma FillFinish<T>(g0: seq<seq<T>>, target: T, repl: T, start: Pos, grid: seq<seq<T>>, done: set<Pos>)
    requires FillInvariant(g0, target, repl, start, grid, done, [])
    ensures grid == Recoloured(g0, target, repl, start)
  {
    var g' := Recoloured(g0, target, repl, start);
    forall r, c | 0 <= r < |g0| && 0 <= c < |g0[r]|
      ensures grid[r][c] == g'[r][c]
    {
      if InRegion(g0, target, start, Pos(r, c)) {
        RegionWithinClosed(g0, target, start, done, Pos(r, c));
      }
    }
    assert forall r | 0 <= r < |g0| :: grid[r] == g'[r];
  }
}
