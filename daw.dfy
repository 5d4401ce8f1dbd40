/**
 * The step-sequencer data model of gemstone/daw.py: its configuration, the
 * rows x cols grid of note cells, the row-to-pitch mapping, the resize of
 * every row when the step count changes, and the step on which a note that
 * starts at a given step is released.
 */
module Daw {
  import opened Util

  /** The Config dataclass; its defaults are 12 rows, 16 steps, middle C, 120 BPM, 480 ticks per beat, 1-step notes. */
  datatype Config = Config(rows: int, cols: int, baseMidiNote: int, tempo: int, tickPerBeat: int, noteLengthSteps: int)

  /** How many items range(n) and [x] * n produce: none for a negative n. */
  function Count(n: int): nat
  {
    if n < 0 then 0 else n
  }

  /** The position a Python index `i` names in a list of length `len`: a negative one counts from the end. */
  function Index(i: int, len: nat): (k: nat)
    requires 0 <= len + i && i < len
    ensures k < len
    ensures i >= 0 ==> k == i
    ensures i < 0 ==> k + (-i) == len
  {
    if i < 0 then len + i else i
  }

  /** row_to_midi: the top row is the highest note, and the bottom row plays base_midi_note. */
  function RowToMidi(row: int, cfg: Config): (note: int)
    ensures row == cfg.rows - 1 ==> note == cfg.baseMidiNote
    ensures 0 <= row < cfg.rows ==> cfg.baseMidiNote <= note < cfg.baseMidiNote + cfg.rows
  {
    cfg.baseMidiNote + (cfg.rows - 1 - row)
  }

  /** A lower row plays a strictly lower note, so no two rows share a pitch. */
  lemma RowToMidiDecreasing(r1: int, r2: int, cfg: Config)
    requires r1 < r2
    ensures RowToMidi(r2, cfg) < RowToMidi(r1, cfg)
  {
  }

  /** The row that plays `note`: the inverse of RowToMidi. */
  function MidiToRow(note: int, cfg: Config): (row: int)
    ensures RowToMidi(row, cfg) == note
  {
    cfg.baseMidiNote + cfg.rows - 1 - note
  }

  /** Every row is the row of its own note. */
  lemma MidiToRowInverse(row: int, cfg: Config)
    ensures MidiToRow(RowToMidi(row, cfg), cfg) == row
  {
  }

  /**
   * off_step: the step at which a note starting at step `c` and lasting
   * `length` steps is released, wrapping round the pattern; a pattern of no
   * steps is taken as one step long.
   */
  function OffStep(c: int, length: int, cols: int): (s: int)
    ensures 0 <= s < (if cols < 1 then 1 else cols)
    ensures cols < 1 ==> s == 0
    ensures 0 <= c + length < cols ==> s == c + length
    ensures 1 <= cols <= c + length < 2 * cols ==> s == c + length - cols
  {
    var m := if cols < 1 then 1 else cols;
    ModCases(c + length, m);
    (c + length) % m
  }

  /** Python's % on a positive modulus, on the arguments the step arithmetic meets. */
  lemma ModCases(a: int, m: int)
    requires m >= 1
    ensures 0 <= a % m < m
    ensures 0 <= a < m ==> a % m == a
    ensures m <= a < 2 * m ==> a % m == a - m
    ensures -m <= a < 0 ==> a % m == a + m
  {
  }

  /** A note lasting a whole pattern is released on the step it started on. */
  lemma OffStepFullPattern(c: int, cols: int)
    requires 0 <= c < cols
    ensures OffStep(c, cols, cols) == c
  {
  }

  /** The grid with cell (r, c) negated. */
  function Toggled(g: seq<seq<bool>>, r: nat, c: nat): (g': seq<seq<bool>>)
    requires r < |g| && c < |g[r]|
    ensures |g'| == |g| && forall i :: 0 <= i < |g| ==> |g'[i]| == |g[i]|
    ensures g'[r][c] == !g[r][c]
    ensures forall i, j :: 0 <= i < |g| && 0 <= j < |g[i]| && (i, j) != (r, c) ==> g'[i][j] == g[i][j]
  {
    SetCell(g, r, c, !g[r][c])
  }

  /** Toggling a cell twice gives the grid back. */
  lemma ToggleTwice(g: seq<seq<bool>>, r: nat, c: nat)
    requires r < |g| && c < |g[r]|
    ensures Toggled(Toggled(g, r, c), r, c) == g
  {
    var g2 := Toggled(Toggled(g, r, c), r, c);
    assert forall i | 0 <= i < |g| :: g2[i] == g[i];
  }

  /**
   * One row after the step count becomes `val`: padded with False up to
   * `val` cells, or cut with `del row[val:]`, which for a negative `val`
   * drops that many cells from the end.
   */
  function Resized(row: seq<bool>, val: int): (row': seq<bool>)
    ensures val >= 0 ==> |row'| == val
    ensures val < 0 ==> |row'| == Count(|row| + val)
    ensures forall i :: 0 <= i < |row'| && i < |row| ==> row'[i] == row[i]
    ensures forall i :: |row| <= i < |row'| ==> !row'[i]
  {
    if |row| < val then row + seq(val - |row|, _ => false)
    else row[..Count(if val >= 0 then val else |row| + val)]
  }

  /** Growing a row and then setting the step count back restores it. */
  lemma ResizeBack(row: seq<bool>, val: int)
    requires val >= |row|
    ensures Resized(Resized(row, val), |row|) == row
  {
  }

  /**
   * Sequencer: the configuration it was made with and the grid of note
   * cells, grid[row][step].
   */
  class Sequencer {
    var cfg: Config
    var grid: seq<seq<bool>>

    /** The grid has cfg.rows rows of cfg.cols cells (none when a count is negative). */
    ghost predicate Valid()
      reads this
    {
      IsRect(grid, Count(cfg.rows), Count(cfg.cols))
    }

    /** __init__: every cell off. */
    constructor (cfg: Config)
      ensures Valid()
      ensures this.cfg == cfg && grid == Uniform(Count(cfg.rows), Count(cfg.cols), false)
    {
      this.cfg := cfg;
      grid := Uniform(Count(cfg.rows), Count(cfg.cols), false);
    }

    /** toggle: negate one cell; Python's negative indices count from the end. */
    method Toggle(row: int, col: int)
      requires Valid()
      requires 0 <= |grid| + row && row < |grid|
      requires 0 <= |grid[Index(row, |grid|)]| + col && col < |grid[Index(row, |grid|)]|
      modifies this`grid
      ensures Valid()
      ensures var r := Index(row, |old(grid)|);
        grid == Toggled(old(grid), r, Index(col, |old(grid)[r]|))
    {
      var r := Index(row, |grid|);
      var c := Index(col, |grid[r]|);
      grid := Toggled(grid, r, c);
    }

    /** set: make one cell `value`, leaving every other cell as it was. */
    method Set(row: int, col: int, value: bool)
      requires Valid()
      requires 0 <= |grid| + row && row < |grid|
      requires 0 <= |grid[Index(row, |grid|)]| + col && col < |grid[Index(row, |grid|)]|
      modifies this`grid
      ensures Valid()
      ensures var r := Index(row, |old(grid)|);
        grid == SetCell(old(grid), r, Index(col, |old(grid)[r]|), value)
    {
      var r := Index(row, |grid|);
      var c := Index(col, |grid[r]|);
      grid := SetCell(grid, r, c, value);
    }

    /** clear: a fresh all-off grid of the configured size. */
    method Clear()
      modifies this`grid
      ensures Valid()
      ensures grid == Uniform(Count(cfg.rows), Count(cfg.cols), false)
    {
      grid := Uniform(Count(cfg.rows), Count(cfg.cols), false);
    }

    /**
     * The grid part of PianoRoll.on_steps_change: the same step count
     * changes nothing; another one is recorded in the configuration and
     * every row is resized to it.
     */
    method OnStepsChange(val: int)
      requires Valid()
      modifies this
      ensures val >= 0 ==> Valid()
      ensures val == old(cfg.cols) ==> cfg == old(cfg) && grid == old(grid)
      ensures val != old(cfg.cols) ==>
        cfg == old(cfg).(cols := val) && |grid| == |old(grid)| &&
        forall r :: 0 <= r < |grid| ==> grid[r] == Resized(old(grid)[r], val)
    {
      if val == cfg.cols {
        return;
      }
      cfg := cfg.(cols := val);
      for r := 0 to Count(cfg.rows)
        invariant |grid| == |old(grid)| && cfg == old(cfg).(cols := val)
        invariant forall k :: 0 <= k < r ==> grid[k] == Resized(old(grid)[k], val)
        invariant forall k :: r <= k < |grid| ==> grid[k] == old(grid)[k]
      {
        var row := grid[r];
        if |row| < val {
          row := row + seq(val - |row|, _ => false);
        } else {
          row := row[..Count(if val >= 0 then val else |row| + val)];
        }
        grid := grid[r := row];
      }
    }
  }
}
