/**
 * The pixel editor scene of gemstone/editor.py: a `canvasH` x `canvasW` grid of
 * RGBA cells, the four painting tools, the zoom cycle and the snapshot
 * undo/redo stacks.
 */
module Editor {
  import opened Util
  import opened Regions
  import opened Pixels

  /** TOOL_PENCIL, TOOL_ERASER, TOOL_FILL and TOOL_EYEDROPPER. */
  datatype Tool = Pencil | Eraser | Fill | Eyedropper

  /** The first palette entry, opaque black: the initial primary colour. */
  const Black := Rgba(0, 0, 0, 255)

  /** Pixel size of a cell at each zoom step. */
  const ZoomLevels: seq<int> := [8, 12, 16, 20]

  /** The undo stack never holds more snapshots than this. */
  const UndoLimit := 50

  class EditorScene {
    const canvasW: int
    const canvasH: int
    var grid: seq<seq<Rgba>>
    var primary: Rgba
    var tool: Tool
    var undoStack: seq<seq<seq<Rgba>>>
    var redoStack: seq<seq<seq<Rgba>>>
    var zoomIndex: int
    /** Top-left corner of the on-screen canvas rectangle. */
    var canvasX: int
    var canvasY: int

    /**
     * The scene's invariant.  Every snapshot has the canvas's shape, and the
     * two stacks together never hold more than UndoLimit snapshots: push_undo
     * caps the undo stack and empties the redo stack, and undo and redo only
     * move one snapshot between them.
     */
    ghost predicate Valid()
      reads this
    {
      canvasW >= 1 && canvasH >= 1 &&
      IsRect(grid, canvasH, canvasW) &&
      (forall i :: 0 <= i < |undoStack| ==> IsRect(undoStack[i], canvasH, canvasW)) &&
      (forall i :: 0 <= i < |redoStack| ==> IsRect(redoStack[i], canvasH, canvasW)) &&
      |undoStack| + |redoStack| <= UndoLimit &&
      0 <= zoomIndex < |ZoomLevels|
    }

    constructor (w: int, h: int)
      requires w >= 1 && h >= 1
      ensures Valid()
      ensures canvasW == w && canvasH == h
      ensures grid == Uniform(h, w, Transparent)
      ensures primary == Black && tool == Pencil && zoomIndex == 0
      ensures undoStack == [] && redoStack == []
      ensures canvasX == 20 && canvasY == 60
    {
      canvasW, canvasH := w, h;
      zoomIndex := 0;
      grid := Uniform(h, w, Transparent);
      primary := Black;
      tool := Pencil;
      undoStack, redoStack := [], [];
      canvasX, canvasY := 20, 60;
    }

    /** clear_canvas: every cell transparent. */
    method ClearCanvas()
      requires Valid()
      modifies this`grid
      ensures Valid()
      ensures grid == Uniform(canvasH, canvasW, Transparent)
    {
      grid := Uniform(canvasH, canvasW, Transparent);
    }

    /** The Z key and the zoom button: step to the next zoom level, wrapping to the first. */
    method CycleZoom()
      requires Valid()
      modifies this`zoomIndex
      ensures Valid()
      ensures zoomIndex == if old(zoomIndex) == |ZoomLevels| - 1 then 0 else old(zoomIndex) + 1
    {
      zoomIndex := (zoomIndex + 1) % |ZoomLevels|;
    }

    /**
     * screen_to_grid: the cell under a screen point, clamped onto the canvas.
     * Floor division by the positive cell size is Dafny's `/`.
     */
    function ScreenToGrid(px: int, py: int): (cell: (int, int))
      reads this
      requires Valid()
      ensures 0 <= cell.0 <= canvasW - 1 && 0 <= cell.1 <= canvasH - 1
      ensures var x, y := (px - canvasX) / ZoomLevels[zoomIndex], (py - canvasY) / ZoomLevels[zoomIndex];
        (0 <= x < canvasW ==> cell.0 == x) && (x < 0 ==> cell.0 == 0) && (x >= canvasW ==> cell.0 == canvasW - 1) &&
        (0 <= y < canvasH ==> cell.1 == y) && (y < 0 ==> cell.1 == 0) && (y >= canvasH ==> cell.1 == canvasH - 1)
    {
      var size := ZoomLevels[zoomIndex];
      var x := (px - canvasX) / size;
      var y := (py - canvasY) / size;
      (Clamp(x, canvasW - 1), Clamp(y, canvasH - 1))
    }

    /** max(0, min(hi, v)). */
    static function Clamp(v: int, hi: int): int
    {
      if v < 0 then 0 else if v > hi then (if hi < 0 then 0 else hi) else v
    }

    /**
     * paint_at: apply the current tool at cell (gx, gy).  `primaryButton` is
     * the left mouse button; the right button paints transparent with the pencil.
     */
    method PaintAt(gx: int, gy: int, primaryButton: bool)
      requires Valid()
      modifies this`grid, this`primary
      ensures Valid()
      ensures !(0 <= gx < canvasW && 0 <= gy < canvasH) ==> grid == old(grid) && primary == old(primary)
      ensures 0 <= gx < canvasW && 0 <= gy < canvasH ==>
        match tool
        case Pencil => grid == SetCell(old(grid), gy, gx, if primaryButton then old(primary) else Transparent) && primary == old(primary)
        case Eraser => grid == SetCell(old(grid), gy, gx, Transparent) && primary == old(primary)
        case Fill => grid == Recoloured(old(grid), old(grid)[gy][gx], old(primary), Pos(gy, gx)) && primary == old(primary)
        case Eyedropper => grid == old(grid) && primary == old(grid)[gy][gx]
    {
      if !(0 <= gx < canvasW && 0 <= gy < canvasH) {
        return;
      }
      var colorPrimary := primary;
      var colorSecondary := Transparent;
      match tool
      case Pencil =>
        grid := SetCell(grid, gy, gx, if primaryButton then colorPrimary else colorSecondary);
      case Eraser =>
        grid := SetCell(grid, gy, gx, Transparent);
      case Fill =>
        var target := grid[gy][gx];
        var repl := colorPrimary;
        if target != repl {
          FloodFill(gx, gy, target, repl);
        } else {
          RecolourSameColour(grid, target, Pos(gy, gx));
        }
      case Eyedropper =>
        primary := grid[gy][gx];
    }

    /**
     * flood_fill: the stack-based fill.  Starting from (x, y) it recolours
     * exactly the 4-connected region of `target` cells containing (x, y).  With
     * `target == repl` it would never stop (every recoloured cell still matches),
     * which is why paint_at only calls it when the colours differ.  It needs
     * only that the grid has the canvas's shape, and keeps that shape.
     */
    method FloodFill(x: int, y: int, target: Rgba, repl: Rgba)
      requires IsRect(grid, canvasH, canvasW) && target != repl
      modifies this`grid
      ensures grid == Recoloured(old(grid), target, repl, Pos(y, x))
    {
      var w, h := canvasW, canvasH;
      ghost var g0 := grid;
      ghost var done: set<Pos> := {};
      var stack := [Pos(y, x)];
      FillStart(g0, target, repl, Pos(y, x));
      while stack != []
        invariant FillInvariant(g0, target, repl, Pos(y, x), grid, done, stack)
        decreases |Cells(g0) - done|, |stack|
      {
        PopBack(stack);
        var p := stack[|stack| - 1];
        ghost var before := stack;
        stack := stack[..|stack| - 1];
        if !(0 <= p.col < w && 0 <= p.row < h) || grid[p.row][p.col] != target {
          FillSkip(g0, target, repl, Pos(y, x), grid, done, before, p, stack);
        } else {
          var pushed := FourNeighbours(p);
          FillPaint(g0, target, repl, Pos(y, x), grid, done, before, p, stack, pushed);
          grid := SetCell(grid, p.row, p.col, repl);
          done := done + {p};
          stack := stack + pushed;
        }
      }
      FillFinish(g0, target, repl, Pos(y, x), grid, done);
    }

    /** push_undo: save a snapshot, drop the oldest beyond UndoLimit, forget the redo history. */
    method PushUndo()
      requires Valid()
      modifies this`undoStack, this`redoStack
      ensures Valid()
      ensures undoStack == if |old(undoStack)| + 1 > UndoLimit then (old(undoStack) + [grid])[1..] else old(undoStack) + [grid]
      ensures redoStack == []
      ensures |undoStack| <= UndoLimit && undoStack[|undoStack| - 1] == grid
    {
      CloneGridEqual(grid);
      undoStack := undoStack + [CloneGrid(grid)];
      if |undoStack| > UndoLimit {
        undoStack := undoStack[1..];
      }
      redoStack := [];
    }

    /** undo: with a snapshot available, restore it and push the current grid on the redo stack. */
    method Undo()
      requires Valid()
      modifies this`grid, this`undoStack, this`redoStack
      ensures Valid()
      ensures old(undoStack) == [] ==> grid == old(grid) && undoStack == [] && redoStack == old(redoStack)
      ensures old(undoStack) != [] ==>
        grid == old(undoStack)[|old(undoStack)| - 1] &&
        undoStack == old(undoStack)[..|old(undoStack)| - 1] &&
        redoStack == old(redoStack) + [old(grid)]
    {
      if undoStack != [] {
        CloneGridEqual(grid);
        redoStack := redoStack + [CloneGrid(grid)];
        grid := undoStack[|undoStack| - 1];
        undoStack := undoStack[..|undoStack| - 1];
      }
    }

    /** redo: the mirror image of undo. */
    method Redo()
      requires Valid()
      modifies this`grid, this`undoStack, this`redoStack
      ensures Valid()
      ensures old(redoStack) == [] ==> grid == old(grid) && redoStack == [] && undoStack == old(undoStack)
      ensures old(redoStack) != [] ==>
        grid == old(redoStack)[|old(redoStack)| - 1] &&
        redoStack == old(redoStack)[..|old(redoStack)| - 1] &&
        undoStack == old(undoStack) + [old(grid)]
    {
      if redoStack != [] {
        CloneGridEqual(grid);
        undoStack := undoStack + [CloneGrid(grid)];
        grid := redoStack[|redoStack| - 1];
        redoStack := redoStack[..|redoStack| - 1];
      }
    }
  }

  /** An undo followed by a redo puts the grid and both stacks back as they were. */
  method UndoThenRedo(e: EditorScene)
    requires e.Valid() && e.undoStack != []
    modifies e
    ensures e.Valid()
    ensures e.grid == old(e.grid) && e.undoStack == old(e.undoStack) && e.redoStack == old(e.redoStack)
  {
    e.Undo();
    e.Redo();
  }
}
