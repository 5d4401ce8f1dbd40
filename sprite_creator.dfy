/**
 * The sprite editor of gemstone/sprite_creator.py: a square grid of RGB
 * cells edited with four tools, a breadth-first flood fill with a visited
 * set, and the filename prompt used by save and load.
 */
module SpriteCreator {
  import opened Wrappers
  import opened Util
  import opened Regions

  /** A cell colour: pygame's (r, g, b) tuple. */
  datatype Rgb = Rgb(r: int, g: int, b: int)

  const White := Rgb(255, 255, 255)
  const Black := Rgb(0, 0, 0)

  /** The canvas's top-left corner sits MARGIN pixels from the window's. */
  const Margin := 50

  /** The prompt accepts a further character only while the name is shorter than this. */
  const NameLimit := 20

  /** "Pencil", "Eraser", "Fill" and "Color Picker". */
  datatype Tool = Pencil | Eraser | Fill | ColorPicker

  /** The two values `input_mode` takes while the filename prompt is open. */
  datatype InputMode = Save | Load

  /** A key press delivered to the prompt; `Typed` carries the event's text. */
  datatype Key = Return | Backspace | Escape | Typed(text: string)

  /** The call Return hands on, with the stripped name. */
  datatype FileRequest = SaveSprite(name: string) | LoadSprite(name: string)

  /** The neighbour offsets (row, column) in the order the fill queues them: up, down, left, right. */
  const Offsets: seq<(int, int)> := [(-1, 0), (1, 0), (0, -1), (0, 1)]

  class SpriteEditor {
    const gridSize: int
    const cellSize: int
    /** The canvas rectangle on screen. */
    const canvasX: int
    const canvasY: int
    const canvasW: int
    const canvasH: int
    var grid: seq<seq<Rgb>>
    var currentColor: Rgb
    var currentTool: Tool
    var inputMode: Option<InputMode>
    var filenameInput: string

    /** The grid is always `gridSize` rows of `gridSize` cells. */
    ghost predicate Valid()
      reads this
    {
      gridSize >= 0 && cellSize >= 0 &&
      canvasW == gridSize * cellSize && canvasH == gridSize * cellSize &&
      IsRect(grid, gridSize, gridSize)
    }

    constructor (size: int, cell: int)
      requires size >= 0 && cell >= 0
      ensures Valid()
      ensures gridSize == size && cellSize == cell
      ensures canvasX == Margin && canvasY == Margin
      ensures grid == Uniform(size, size, White)
      ensures currentColor == Black && currentTool == Pencil
      ensures inputMode == None && filenameInput == ""
    {
      gridSize, cellSize := size, cell;
      canvasX, canvasY := Margin, Margin;
      canvasW, canvasH := size * cell, size * cell;
      grid := Uniform(size, size, White);
      currentColor := Black;
      currentTool := Pencil;
      inputMode := None;
      filenameInput := "";
    }

    /** clear_canvas: every cell white. */
    method ClearCanvas()
      requires Valid()
      modifies this`grid
      ensures Valid()
      ensures grid == Uniform(gridSize, gridSize, White)
    {
      grid := Uniform(gridSize, gridSize, White);
    }

    /** start_input_mode: open the filename prompt with an empty name. */
    method StartInputMode(mode: InputMode)
      modifies this`inputMode, this`filenameInput
      ensures inputMode == Some(mode) && filenameInput == ""
    {
      inputMode := Some(mode);
      filenameInput := "";
    }

    /**
     * The canvas part of handle_mouse: a click inside the canvas rectangle
     * selects the cell under it (floor division by the cell size) and applies
     * the current tool there.  The UI buttons tested before it are not part
     * of this model.
     */
    method HandleCanvasClick(x: int, y: int)
      requires Valid()
      modifies this`grid, this`currentColor
      ensures Valid()
      ensures !WithinRect(x, y, canvasX, canvasY, canvasW, canvasH) ==>
        grid == old(grid) && currentColor == old(currentColor)
      ensures WithinRect(x, y, canvasX, canvasY, canvasW, canvasH) ==>
        var row, col := (y - canvasY) / cellSize, (x - canvasX) / cellSize;
        0 <= row < gridSize && 0 <= col < gridSize &&
        match currentTool
        case Pencil => grid == SetCell(old(grid), row, col, old(currentColor)) && currentColor == old(currentColor)
        case Eraser => grid == SetCell(old(grid), row, col, White) && currentColor == old(currentColor)
        case ColorPicker => grid == old(grid) && currentColor == old(grid)[row][col]
        case Fill => grid == Recoloured(old(grid), old(grid)[row][col], old(currentColor), Pos(row, col)) &&
                     currentColor == old(currentColor)
    {
      if WithinRect(x, y, canvasX, canvasY, canvasW, canvasH) {
        ClickInsideCanvas(x - canvasX, gridSize, cellSize);
        ClickInsideCanvas(y - canvasY, gridSize, cellSize);
        var col := (x - canvasX) / cellSize;
        var row := (y - canvasY) / cellSize;
        if 0 <= row < gridSize && 0 <= col < gridSize {
          match currentTool
          case Pencil =>
            grid := SetCell(grid, row, col, currentColor);
          case Eraser =>
            grid := SetCell(grid, row, col, White);
          case ColorPicker =>
            currentColor := grid[row][col];
          case Fill =>
            FloodFill(row, col, grid[row][col], currentColor);
        }
      }
    }

    /**
     * flood_fill: breadth-first from (row, col) through `target` cells,
     * skipping cells already visited.  It recolours exactly the 4-connected
     * region of `target` cells containing the start, and leaves the grid
     * alone when the two colours are equal.
     */
    method FloodFill(row: int, col: int, target: Rgb, repl: Rgb)
      requires IsRect(grid, gridSize, gridSize)
      modifies this`grid
      ensures target == repl ==> grid == old(grid)
      ensures grid == Recoloured(old(grid), target, repl, Pos(row, col))
    {
      if target == repl {
        RecolourSameColour(grid, target, Pos(row, col));
        return;
      }
      var n := gridSize;
      ghost var g0 := grid;
      var queue := [Pos(row, col)];
      var visited: set<Pos> := {};
      FillStart(g0, target, repl, Pos(row, col));
      while queue != []
        invariant FillInvariant(g0, target, repl, Pos(row, col), grid, visited, queue)
        decreases |Cells(g0) - visited|, |queue|
      {
        PopFront(queue);
        var p := queue[0];
        ghost var before := queue;
        queue := queue[1..];
        if p in visited || !(0 <= p.row < n && 0 <= p.col < n) || grid[p.row][p.col] != target {
          FillSkip(g0, target, repl, Pos(row, col), grid, visited, before, p, queue);
        } else {
          var pushed := QueueNeighbours(p, visited + {p});
          FillPaint(g0, target, repl, Pos(row, col), grid, visited, before, p, queue, pushed);
          visited := visited + {p};
          grid := SetCell(grid, p.row, p.col, repl);
          queue := queue + pushed;
        }
      }
      FillFinish(g0, target, repl, Pos(row, col), grid, visited);
    }

    /**
     * handle_text_input, for a key pressed while the prompt is open.  Return
     * closes the prompt and, when the stripped name is not blank, asks for a
     * save or a load of that name; Backspace drops the last character;
     * Escape closes the prompt; any other key appends its text while the name
     * is shorter than NameLimit.
     */
    method HandleTextInput(key: Key) returns (request: Option<FileRequest>)
      requires inputMode.Some?
      modifies this`inputMode, this`filenameInput
      ensures key.Return? ==>
        inputMode == None && filenameInput == old(filenameInput) &&
        request == (if Strip(old(filenameInput)) == "" then None
                    else if old(inputMode) == Some(Save) then Some(SaveSprite(Strip(old(filenameInput))))
                    else Some(LoadSprite(Strip(old(filenameInput)))))
      ensures key.Backspace? ==>
        inputMode == old(inputMode) && request == None &&
        filenameInput == (if old(filenameInput) == "" then "" else old(filenameInput)[..|old(filenameInput)| - 1])
      ensures key.Escape? ==> inputMode == None && filenameInput == old(filenameInput) && request == None
      ensures key.Typed? ==>
        inputMode == old(inputMode) && request == None &&
        filenameInput == (if |old(filenameInput)| < NameLimit then old(filenameInput) + key.text else old(filenameInput))
      ensures |old(filenameInput)| <= NameLimit && (key.Typed? ==> |key.text| <= 1) ==> |filenameInput| <= NameLimit
    {
      request := None;
      match key
      case Return =>
        var name := Strip(filenameInput);
        if name != "" {
          if inputMode == Some(Save) {
            request := Some(SaveSprite(name));
          } else {
            request := Some(LoadSprite(name));
          }
        }
        inputMode := None;
      case Backspace =>
        if filenameInput != "" {
          filenameInput := filenameInput[..|filenameInput| - 1];
        }
      case Escape =>
        inputMode := None;
      case Typed(text) =>
        if |filenameInput| < NameLimit {
          filenameInput := filenameInput + text;
        }
    }
  }

  /**
   * A click at offset `d` inside a canvas of `size` cells of `cell` pixels
   * falls in a cell of the grid, so handle_mouse's range test always passes.
   */
  lemma ClickInsideCanvas(d: int, size: int, cell: int)
    requires 0 <= d < size * cell && size >= 0 && cell >= 0
    ensures cell > 0 && 0 <= d / cell < size
  {
  }

  /** The cell one step from `p` by the offset `o`. */
  function Shift(p: Pos, o: (int, int)): Pos
  {
    Pos(p.row + o.0, p.col + o.1)
  }

  /**
   * The neighbour loop of flood_fill: queue each neighbour of `p`, in
   * Offsets order, that is not in `visited`.
   */
  method QueueNeighbours(p: Pos, visited: set<Pos>) returns (pushed: seq<Pos>)
    ensures forall i :: 0 <= i < |pushed| ==> Adjacent(p, pushed[i]) && pushed[i] !in visited
    ensures forall q :: Adjacent(p, q) && q !in visited ==> q in pushed
  {
    pushed := [];
    for k := 0 to |Offsets|
      invariant forall i :: 0 <= i < |pushed| ==> Adjacent(p, pushed[i]) && pushed[i] !in visited
      invariant forall j :: 0 <= j < k ==> Shift(p, Offsets[j]) in visited || Shift(p, Offsets[j]) in pushed
    {
      var next := Shift(p, Offsets[k]);
      if next !in visited {
        pushed := pushed + [next];
      }
    }
    forall q | Adjacent(p, q) && q !in visited
      ensures q in pushed
    {
      if q == Pos(p.row - 1, p.col) {
        assert q == Shift(p, Offsets[0]);
      } else if q == Pos(p.row + 1, p.col) {
        assert q == Shift(p, Offsets[1]);
      } else if q == Pos(p.row, p.col - 1) {
        assert q == Shift(p, Offsets[2]);
      } else {
        assert q == Shift(p, Offsets[3]);
      }
    }
  }

  /**
   * The characters Python's str.strip removes: the ASCII whitespace and
   * separators and the Unicode spaces.
   */
  predicate IsSpace(c: char)
  {
    c == ' ' || '\t' <= c <= '\r' || '\U{1C}' <= c <= '\U{1F}' ||
    c == '\U{85}' || c == '\U{A0}' || c == '\U{1680}' || '\U{2000}' <= c <= '\U{200A}' ||
    c == '\U{2028}' || c == '\U{2029}' || c == '\U{202F}' || c == '\U{205F}' || c == '\U{3000}'
  }

  /** `s` without its leading whitespace. */
  function StripLeading(s: string): (r: string)
    ensures |r| <= |s| && r == s[|s| - |r|..]
    ensures r == [] || !IsSpace(r[0])
    ensures forall i :: 0 <= i < |s| - |r| ==> IsSpace(s[i])
  {
    if s != [] && IsSpace(s[0]) then StripLeading(s[1..]) else s
  }

  /** `s` without its trailing whitespace. */
  function StripTrailing(s: string): (r: string)
    ensures |r| <= |s| && r == s[..|r|]
    ensures r == [] || !IsSpace(r[|r| - 1])
    ensures forall i :: |r| <= i < |s| ==> IsSpace(s[i])
  {
    if s != [] && IsSpace(s[|s| - 1]) then StripTrailing(s[..|s| - 1]) else s
  }

  /** str.strip(): `s` without leading and trailing whitespace. */
  function Strip(s: string): string
  {
    StripTrailing(StripLeading(s))
  }

  /** `r` is the stretch of `s` starting at `i`, with only whitespace around it. */
  ghost predicate StrippedAt(s: string, r: string, i: int)
  {
    0 <= i <= |s| - |r| && s[i..i + |r|] == r &&
    (forall k :: 0 <= k < i ==> IsSpace(s[k])) && (forall k :: i + |r| <= k < |s| ==> IsSpace(s[k]))
  }

  /**
   * What strip keeps: a stretch of `s` that neither starts nor ends with
   * whitespace, with only whitespace cut on either side.
   */
  lemma StripKeepsMiddle(s: string)
    ensures var r := Strip(s);
      (r == [] || (!IsSpace(r[0]) && !IsSpace(r[|r| - 1]))) &&
      exists i :: StrippedAt(s, r, i)
  {
    StripEnds(s);
    StripLocated(s);
  }

  /** Neither end of the stripped string is whitespace. */
  lemma StripEnds(s: string)
    ensures var r := Strip(s);
      r == [] || (!IsSpace(r[0]) && !IsSpace(r[|r| - 1]))
  {
    var l := StripLeading(s);
    var r := StripTrailing(l);
    if r != [] {
      assert r[0] == l[0];
    }
  }

  /** The stripped string sits in `s` after exactly the leading whitespace. */
  lemma StripLocated(s: string)
    ensures StrippedAt(s, Strip(s), |s| - |StripLeading(s)|)
  {
    Located(s, StripLeading(s), Strip(s));
  }

  /** A whitespace-bounded stretch `r` of a whitespace-bounded suffix `l` of `s` is placed in `s` accordingly. */
  lemma Located(s: string, l: string, r: string)
    requires |l| <= |s| && l == s[|s| - |l|..] && (forall k :: 0 <= k < |s| - |l| ==> IsSpace(s[k]))
    requires |r| <= |l| && r == l[..|r|] && (forall k :: |r| <= k < |l| ==> IsSpace(l[k]))
    ensures StrippedAt(s, r, |s| - |l|)
  {
    var i := |s| - |l|;
    assert s[i..i + |r|] == r;
    forall k | i + |r| <= k < |s|
      ensures IsSpace(s[k])
    {
      assert s[k] == l[k - i];
    }
  }

  /** The name is blank, so Return neither saves nor loads, exactly when it is all whitespace. */
  lemma StripBlank(s: string)
    ensures Strip(s) == [] <==> forall k :: 0 <= k < |s| ==> IsSpace(s[k])
  {
    if forall k :: 0 <= k < |s| ==> IsSpace(s[k]) {
      AllSpaceStripsLeading(s);
    } else {
      StripKeepsMiddle(s);
    }
  }

  lemma {:induction false} AllSpaceStripsLeading(s: string)
    requires forall k :: 0 <= k < |s| ==> IsSpace(s[k])
    ensures StripLeading(s) == []
    decreases |s|
  {
    if s != [] {
      AllSpaceStripsLeading(s[1..]);
    }
  }

  /** Stripping twice is stripping once. */
  lemma StripIdempotent(s: string)
    ensures Strip(Strip(s)) == Strip(s)
  {
    var r := Strip(s);
    StripKeepsMiddle(s);
    assert StripLeading(r) == r;
    assert StripTrailing(r) == r;
  }

  /** The name save_sprite and load_sprite use: ".png" appended unless already there. */
  function WithPngSuffix(name: string): (file: string)
    ensures EndsWith(file, ".png") && |name| <= |file| <= |name| + 4 && file[..|name|] == name
    ensures EndsWith(name, ".png") ==> file == name
  {
    if EndsWith(name, ".png") then name else name + ".png"
  }

  /** Normalising twice equals normalising once. */
  lemma PngSuffixIdempotent(name: string)
    ensures WithPngSuffix(WithPngSuffix(name)) == WithPngSuffix(name)
  {
  }
}
