/**
 * The frame-by-frame animation editor of gemstone/animation_editor.py: a
 * list of equally sized frames, the selected frame, a playback rate in
 * frames per second, and the keyboard commands that edit, navigate, play
 * and export the list as a horizontal strip sheet.
 */
module AnimationEditor {
  import opened Wrappers
  import opened Pixels
  import opened Lists

  /** Frames are at most 256 pixels on a side. */
  const MaxSide := 256
  const MinRate := 1
  const MaxRate := 60
  const DefaultRate := 6

  /** The keys handle_event reacts to; any other key does nothing. */
  datatype Key = Space | NewFrame | Duplicate | Delete | Right | Left | Up | Down | Export | Other

  /** min(n, 256): the side of a new frame for a canvas side of `n`. */
  function FrameSide(n: nat): (side: nat)
    ensures side <= MaxSide
    ensures side == n || (n > MaxSide && side == MaxSide)
  {
    if n < MaxSide then n else MaxSide
  }

  /** How long a frame stays on screen at `rate` frames per second: 1000 // rate milliseconds. */
  function FramePeriod(rate: int): (ms: int)
    requires MinRate <= rate <= MaxRate
    ensures 16 <= ms <= 1000
  {
    1000 / rate
  }

  /** A faster rate never shows a frame longer. */
  lemma FramePeriodMonotone(r1: int, r2: int)
    requires MinRate <= r1 <= r2 <= MaxRate
    ensures FramePeriod(r2) <= FramePeriod(r1)
  {
    var p1, p2 := FramePeriod(r1), FramePeriod(r2);
    DivBounds(1000, r1);
    DivBounds(1000, r2);
    if p2 > p1 {
      MulMono(r1, r2, p1 + 1, p2);
    }
  }

  lemma DivBounds(n: nat, d: int)
    requires d > 0
    ensures d * (n / d) <= n < d * (n / d + 1)
  {
  }

  lemma MulMono(a: nat, b: nat, c: nat, d: nat)
    requires a <= b && c <= d
    ensures a * c <= b * d
  {
  }

  /**
   * The frame step with the empty list handled as update() handles it:
   * with no frames the selection stays where it is; otherwise it moves
   * `delta` places, wrapping around the list (Python's % on a positive
   * modulus agrees with Dafny's).
   */
  function Step(current: int, delta: int, count: nat): (r: int)
    ensures count == 0 ==> r == current
    ensures count > 0 ==> 0 <= r < count
    ensures 0 <= current < count && delta == 1 ==> r == if current + 1 == count then 0 else current + 1
    ensures 0 <= current < count && delta == -1 ==> r == if current == 0 then count - 1 else current - 1
  {
    if count == 0 then current else (current + delta) % count
  }

  /** Why a step of handle_event's frame navigation fails as written. */
  datatype NavError = ZeroDivision

  /**
   * The next/previous-frame step as the key handler writes it,
   * (current + delta) % len(frames): Python raises ZeroDivisionError when
   * the list is empty, and otherwise agrees with Step.
   */
  function StepAsWritten(current: int, delta: int, count: nat): (r: Result<int, NavError>)
    ensures r.Err? <==> count == 0
    ensures r.Ok? ==> r.value == Step(current, delta, count)
  {
    if count == 0 then Err(ZeroDivision) else Ok((current + delta) % count)
  }

  /**
   * Deleting the only frame and then pressing Right divides by zero: the
   * delete leaves no frame and the selection at 0.
   */
  lemma NavigateAfterDeletingLastFrame(f: Surface)
    ensures var frames := Removed([f], 0);
      frames == [] && StepAsWritten(if 0 - 1 < 0 then 0 else 0 - 1, 1, |frames|) == Err(ZeroDivision)
  {
  }

  /** Left undoes Right, and Right undoes Left. */
  lemma StepBackUndoesStep(current: int, count: nat)
    requires 0 <= current < count
    ensures Step(Step(current, 1, count), -1, count) == current
    ensures Step(Step(current, -1, count), 1, count) == current
  {
  }

  /** The selection after `k` presses of Right (or `k` playback advances). */
  function Advanced(current: int, count: nat, k: nat): (r: int)
    requires 0 <= current < count
    ensures 0 <= r < count
  {
    if k == 0 then current else Step(Advanced(current, count, k - 1), 1, count)
  }

  /** `k` advances, for k up to the list's length, move the selection k places round the list. */
  lemma {:induction false} AdvancedIsOffset(current: int, count: nat, k: nat)
    requires 0 <= current < count && k <= count
    ensures Advanced(current, count, k) == if current + k < count then current + k else current + k - count
  {
    if k > 0 {
      AdvancedIsOffset(current, count, k - 1);
    }
  }

  /** Going once round the list comes back to the same frame. */
  lemma FullCycle(current: int, count: nat)
    requires 0 <= current < count
    ensures Advanced(current, count, count) == current
  {
    AdvancedIsOffset(current, count, count);
  }

  /**
   * AnimationEditorScene: the frames, the selected frame, the playback
   * rate and state, and the time accumulated since the last advance.
   */
  class AnimationEditorScene {
    const canvasW: nat
    const canvasH: nat
    var frames: seq<Surface>
    var currentFrame: int
    var frameRate: int
    var playing: bool
    var lastUpdate: int

    /**
     * The rate stays in [1, 60], the selection names a frame (0 when there
     * is none), and every frame has the size new frames are made with.
     */
    ghost predicate Valid()
      reads this
    {
      MinRate <= frameRate <= MaxRate &&
      (frames == [] ==> currentFrame == 0) &&
      (frames != [] ==> 0 <= currentFrame < |frames|) &&
      AllSized(frames, FrameSide(canvasW), FrameSide(canvasH))
    }

    /** __init__: rate 6, paused, and one blank frame, selected. */
    constructor (w: nat, h: nat)
      ensures Valid()
      ensures canvasW == w && canvasH == h
      ensures frames == [Blank(FrameSide(w), FrameSide(h), White)] && currentFrame == 0
      ensures frameRate == DefaultRate && !playing && lastUpdate == 0
    {
      canvasW, canvasH := w, h;
      frames := [Blank(FrameSide(w), FrameSide(h), White)];
      currentFrame := 0;
      frameRate := DefaultRate;
      playing := false;
      lastUpdate := 0;
    }

    /** add_frame: append a white frame of the canvas size (at most 256 a side) and select it. */
    method AddFrame()
      requires Valid()
      modifies this
      ensures Valid()
      ensures frames == old(frames) + [Blank(FrameSide(canvasW), FrameSide(canvasH), White)]
      ensures currentFrame == |frames| - 1
      ensures frameRate == old(frameRate) && playing == old(playing) && lastUpdate == old(lastUpdate)
    {
      frames := frames + [Blank(FrameSide(canvasW), FrameSide(canvasH), White)];
      currentFrame := |frames| - 1;
    }

    /** duplicate_frame: insert a copy of the selected frame after it and select the copy. */
    method DuplicateFrame()
      requires Valid()
      modifies this
      ensures Valid()
      ensures old(frames) == [] ==> frames == [] && currentFrame == old(currentFrame)
      ensures old(frames) != [] ==>
        frames == Inserted(old(frames), old(currentFrame) + 1, old(frames)[old(currentFrame)]) &&
        currentFrame == old(currentFrame) + 1 &&
        frames[currentFrame] == frames[currentFrame - 1]
      ensures frameRate == old(frameRate) && playing == old(playing) && lastUpdate == old(lastUpdate)
    {
      if frames != [] {
        var copy := frames[currentFrame];
        frames := Inserted(frames, currentFrame + 1, copy);
        currentFrame := currentFrame + 1;
      }
    }

    /** delete_frame: remove the selected frame and select the one before it (or the first). */
    method DeleteFrame()
      requires Valid()
      modifies this
      ensures Valid()
      ensures old(frames) == [] ==> frames == [] && currentFrame == old(currentFrame)
      ensures old(frames) != [] ==>
        frames == Removed(old(frames), old(currentFrame)) &&
        currentFrame == (if old(currentFrame) - 1 < 0 then 0 else old(currentFrame) - 1)
      ensures frameRate == old(frameRate) && playing == old(playing) && lastUpdate == old(lastUpdate)
    {
      if frames != [] {
        frames := Removed(frames, currentFrame);
        currentFrame := if currentFrame - 1 < 0 then 0 else currentFrame - 1;
      }
    }

    /**
     * export_spritesheet: with no frames nothing is exported; otherwise the
     * frames are blitted left to right at (i * w, 0) onto a transparent
     * sheet w * len(frames) wide and h high, where (w, h) is the first
     * frame's size.
     */
    method ExportSpritesheet() returns (sheet: Option<Surface>)
      requires Valid()
      ensures frames == [] ==> sheet == None
      ensures frames != [] ==>
        sheet == Some(StripSheet(frames, frames[0].width, frames[0].height, |frames|)) &&
        sheet.value.width == frames[0].width * |frames| && sheet.value.height == frames[0].height
    {
      if frames == [] {
        return None;
      }
      var fw: nat, fh: nat := frames[0].width, frames[0].height;
      StripStart(frames, fw, fh);
      var s := Blank(fw * |frames|, fh, Transparent);
      for i := 0 to |frames|
        invariant s == StripSheet(frames, fw, fh, i)
      {
        StripStep(frames, fw, fh, i);
        s := Blit(s, frames[i], i * fw, 0);
      }
      OffsetIsProduct(|frames|, fw);
      return Some(s);
    }

    /**
     * update: while playing and with frames, accumulate `dt` milliseconds;
     * once a frame period has been reached, advance to the next frame
     * (wrapping) and restart the accumulator.
     */
    method Update(dt: int)
      requires Valid()
      modifies this
      ensures Valid()
      ensures frames == old(frames) && frameRate == old(frameRate) && playing == old(playing)
      ensures !playing || frames == [] ==> currentFrame == old(currentFrame) && lastUpdate == old(lastUpdate)
      ensures playing && frames != [] && old(lastUpdate) + dt >= FramePeriod(frameRate) ==>
        currentFrame == Step(old(currentFrame), 1, |frames|) && lastUpdate == 0
      ensures playing && frames != [] && old(lastUpdate) + dt < FramePeriod(frameRate) ==>
        currentFrame == old(currentFrame) && lastUpdate == old(lastUpdate) + dt
    {
      if playing && |frames| > 0 {
        lastUpdate := lastUpdate + dt;
        if lastUpdate >= 1000 / frameRate {
          currentFrame := (currentFrame + 1) % |frames|;
          lastUpdate := 0;
        }
      }
    }

    /**
     * handle_event for a key press.  Export returns the sheet it would
     * write; every other key returns None.  Right and Left on an empty list
     * leave the selection alone (see StepAsWritten for the code as written).
     */
    method HandleKey(key: Key) returns (exported: Option<Surface>)
      requires Valid()
      modifies this
      ensures Valid()
      ensures key == Space ==> playing == !old(playing) && frames == old(frames) && currentFrame == old(currentFrame)
      ensures key == NewFrame ==>
        frames == old(frames) + [Blank(FrameSide(canvasW), FrameSide(canvasH), White)] && currentFrame == |frames| - 1
      ensures key == Duplicate && old(frames) != [] ==>
        frames == Inserted(old(frames), old(currentFrame) + 1, old(frames)[old(currentFrame)]) &&
        currentFrame == old(currentFrame) + 1
      ensures key == Delete && old(frames) != [] ==>
        frames == Removed(old(frames), old(currentFrame)) &&
        currentFrame == (if old(currentFrame) - 1 < 0 then 0 else old(currentFrame) - 1)
      ensures (key == Duplicate || key == Delete) && old(frames) == [] ==> frames == [] && currentFrame == old(currentFrame)
      ensures key == Right ==> frames == old(frames) && currentFrame == Step(old(currentFrame), 1, |frames|)
      ensures key == Left ==> frames == old(frames) && currentFrame == Step(old(currentFrame), -1, |frames|)
      ensures key == Up ==> frameRate == (if old(frameRate) + 1 < MaxRate then old(frameRate) + 1 else MaxRate)
      ensures key == Down ==> frameRate == (if old(frameRate) - 1 > MinRate then old(frameRate) - 1 else MinRate)
      ensures key != Up && key != Down ==> frameRate == old(frameRate)
      ensures key != Space ==> playing == old(playing)
      ensures key in {Up, Down, Export, Other} ==> frames == old(frames) && currentFrame == old(currentFrame)
      ensures key == Export && frames != [] ==> exported == Some(StripSheet(frames, frames[0].width, frames[0].height, |frames|))
      ensures key != Export || frames == [] ==> exported == None
      ensures lastUpdate == old(lastUpdate)
    {
      exported := None;
      match key
      case Space => playing := !playing;
      case NewFrame => AddFrame();
      case Duplicate => DuplicateFrame();
      case Delete => DeleteFrame();
      case Right => currentFrame := Step(currentFrame, 1, |frames|);
      case Left => currentFrame := Step(currentFrame, -1, |frames|);
      case Up => frameRate := if frameRate + 1 < MaxRate then frameRate + 1 else MaxRate;
      case Down => frameRate := if frameRate - 1 > MinRate then frameRate - 1 else MinRate;
      case Export => exported := ExportSpritesheet();
      case Other =>
    }
  }
}
