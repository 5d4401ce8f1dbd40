/**
 * The frame-animation core of gemstone/animation_manager.py: frames, the
 * editable frame list of an animation, the playback instance that walks it,
 * and the name-keyed registry with its JSON manifest reader and writer.
 *
 * Surfaces are pixel values (Pixels.Surface); the JSON document is the
 * decoded manifest (Document), and the image files the reader loads or the
 * writer saves are maps from file name to surface.
 */
module Animations {
  import opened Wrappers
  import opened Util
  import opened Pixels
  import opened Lists
  import opened Playback

  /** Frame(surface, duration=100, pivot=(0, 0)); the duration is in milliseconds. */
  datatype Frame = Frame(surface: Surface, duration: int, pivot: (int, int))

  const DefaultDuration := 100
  const DefaultPivot := (0, 0)
  const DefaultName := "anim"

  /** The durations of a frame list, in order: what playback looks at. */
  function Durations(frames: seq<Frame>): (durs: seq<int>)
    ensures |durs| == |frames| && forall i :: 0 <= i < |frames| ==> durs[i] == frames[i].duration
  {
    seq(|frames|, i requires 0 <= i < |frames| => frames[i].duration)
  }

  class Animation {
    const name: string
    const loop: bool
    var frames: seq<Frame>

    constructor (name: string, loop: bool)
      ensures this.name == name && this.loop == loop && frames == []
    {
      this.name := name;
      this.loop := loop;
      frames := [];
    }

    /**
     * add_frame: append, or insert before `index` as list.insert does (a
     * negative index counts from the end; out-of-range indices clamp).
     */
    method AddFrame(frame: Frame, index: Option<int>)
      modifies this`frames
      ensures index.None? ==> frames == old(frames) + [frame]
      ensures index.Some? ==> frames == Inserted(old(frames), InsertPos(|old(frames)|, index.value), frame)
    {
      match index
      case None =>
        frames := frames + [frame];
      case Some(i) =>
        frames := Inserted(frames, InsertPos(|frames|, i), frame);
    }

    /** remove_frame: delete the frame at `index` when it exists, otherwise do nothing. */
    method RemoveFrame(index: int)
      modifies this`frames
      ensures 0 <= index < |old(frames)| ==> frames == Removed(old(frames), index)
      ensures !(0 <= index < |old(frames)|) ==> frames == old(frames)
    {
      if 0 <= index < |frames| {
        frames := Removed(frames, index);
      }
    }

    /**
     * duplicate_frame: insert after `index` a frame with a copy of its
     * surface and the same duration and pivot; out of range, do nothing.
     */
    method DuplicateFrame(index: int)
      modifies this`frames
      ensures 0 <= index < |old(frames)| ==> frames == Inserted(old(frames), index + 1, old(frames)[index])
      ensures !(0 <= index < |old(frames)|) ==> frames == old(frames)
    {
      if 0 <= index < |frames| {
        var src := frames[index];
        var dup := Frame(src.surface, src.duration, src.pivot);
        frames := Inserted(frames, index + 1, dup);
      }
    }
  }

  /** Runtime playback state of one animated entity. */
  class AnimationInstance {
    var animation: Animation
    var current: int
    var elapsed: int
    var playing: bool

    constructor (animation: Animation)
      ensures this.animation == animation && current == 0 && elapsed == 0 && playing
    {
      this.animation := animation;
      current, elapsed, playing := 0, 0, true;
    }

    /** reset: back to the first frame, nothing accumulated, playing. */
    method Reset()
      modifies this`current, this`elapsed, this`playing
      ensures current == 0 && elapsed == 0 && playing
    {
      current, elapsed, playing := 0, 0, true;
    }

    /** set_animation: rebind to another animation and reset. */
    method SetAnimation(animation: Animation)
      modifies this`animation, this`current, this`elapsed, this`playing
      ensures this.animation == animation && current == 0 && elapsed == 0 && playing
    {
      this.animation := animation;
      Reset();
    }

    /**
     * update: add `dt` to the accumulator, then advance frame by frame as
     * Playback.Play describes.  The source indexes the frame list with
     * `current`, so `current` must name a frame, and a looping animation
     * needs positive durations for the loop to end.
     */
    method Update(dt: int)
      requires playing && animation.frames != [] ==>
        0 <= current < |animation.frames| &&
        (animation.loop ==> AllPositive(Durations(animation.frames)))
      modifies this`current, this`elapsed, this`playing
      ensures !old(playing) || animation.frames == [] ==>
        current == old(current) && elapsed == old(elapsed) && playing == old(playing)
      ensures old(playing) && animation.frames != [] ==>
        Clock(current, elapsed, playing) ==
        Play(Durations(animation.frames), animation.loop, old(current), old(elapsed) + dt)
    {
      if !playing || animation.frames == [] {
        return;
      }
      ghost var durs := Durations(animation.frames);
      elapsed := elapsed + dt;
      ghost var outcome := Play(durs, animation.loop, current, elapsed);
      while elapsed >= animation.frames[current].duration
        invariant 0 <= current < |animation.frames| && playing
        invariant Play(durs, animation.loop, current, elapsed) == outcome
        decreases if animation.loop then elapsed else |animation.frames| - current
      {
        elapsed := elapsed - animation.frames[current].duration;
        current := current + 1;
        if current >= |animation.frames| {
          if animation.loop {
            current := 0;
          } else {
            current := |animation.frames| - 1;
            playing := false;
            break;
          }
        }
      }
    }

    /** get_surface: the current frame's surface, or None for an animation without frames. */
    function GetSurface(): (s: Option<Surface>)
      reads this, animation
      requires animation.frames != [] ==> 0 <= current < |animation.frames|
      ensures s.None? <==> animation.frames == []
      ensures s.Some? ==> s.value == animation.frames[current].surface
    {
      if animation.frames == [] then None else Some(animation.frames[current].surface)
    }
  }

  /** One entry of a manifest's "frames" list; a missing key is None. */
  datatype FrameEntry = FrameEntry(rect: Option<seq<int>>, file: Option<string>, index: Option<int>,
                                   duration: Option<int>, pivot: Option<(int, int)>)

  /** The manifest's top-level object; a missing key is None. */
  datatype Document = Document(name: Option<string>, loop: Option<bool>, spritesheet: Option<string>,
                               frames: Option<seq<FrameEntry>>)

  /** Why reading a manifest fails: an image it names is absent, or a "rect" is not four numbers with a non-negative size. */
  datatype LoadError = MissingImage(file: string) | BadRect(rect: seq<int>)

  /** save_animation_json's ValueError. */
  datatype SaveError = UnknownAnimation(name: string)

  /** dict.get with a default. */
  function OrElse<T>(o: Option<T>, default: T): T
  {
    if o.Some? then o.value else default
  }

  /**
   * The (w, h) SRCALPHA surface that receives the `rect` area of the sheet:
   * each pixel is the sheet pixel at the same offset from (x, y), and
   * transparent where that lies outside the sheet.
   */
  function Crop(sheet: Surface, x: int, y: int, w: nat, h: nat): (s: Surface)
    ensures s.WellFormed() && s.width == w && s.height == h
    ensures forall i, j :: 0 <= i < h && 0 <= j < w ==>
      s.pixels[i][j] == if 0 <= y + i < |sheet.pixels| && 0 <= x + j < |sheet.pixels[y + i]|
                        then sheet.pixels[y + i][x + j] else Transparent
  {
    Surface(w, h, seq(h, i requires 0 <= i < h =>
      seq(w, j requires 0 <= j < w =>
        if 0 <= y + i < |sheet.pixels| && 0 <= x + j < |sheet.pixels[y + i]| then sheet.pixels[y + i][x + j] else Transparent)))
  }

  /** An entry the reader turns into a frame: a "rect" with a sheet loaded, or a "file". */
  predicate Usable(e: FrameEntry, hasSheet: bool)
  {
    (hasSheet && e.rect.Some?) || e.file.Some?
  }

  /**
   * One pass of the reader's frame loop: a frame cut from the sheet, a
   * frame loaded from its file, or None for an entry that is skipped.
   */
  function DecodeEntry(e: FrameEntry, sheet: Option<Surface>, images: map<string, Surface>): (r: Result<Option<Frame>, LoadError>)
    ensures r.Ok? ==> (r.value.Some? <==> Usable(e, sheet.Some?))
    ensures r.Ok? && r.value.Some? ==>
      r.value.value.duration == OrElse(e.duration, DefaultDuration) &&
      r.value.value.pivot == OrElse(e.pivot, DefaultPivot)
    ensures !(sheet.Some? && e.rect.Some?) && e.file.Some? ==>
      (r.Ok? <==> e.file.value in images) &&
      (r.Ok? ==> r.value.value.surface == images[e.file.value])
  {
    if sheet.Some? && e.rect.Some? then
      var rect := e.rect.value;
      if |rect| != 4 || rect[2] < 0 || rect[3] < 0 then Err(BadRect(rect))
      else Ok(Some(Frame(Crop(sheet.value, rect[0], rect[1], rect[2], rect[3]),
                         OrElse(e.duration, DefaultDuration), OrElse(e.pivot, DefaultPivot))))
    else if e.file.Some? then
      if e.file.value in images then
        Ok(Some(Frame(images[e.file.value], OrElse(e.duration, DefaultDuration), OrElse(e.pivot, DefaultPivot))))
      else Err(MissingImage(e.file.value))
    else Ok(None)
  }

  /** The frames decoded from `entries` in order, or the first entry's error. */
  function DecodeFrames(entries: seq<FrameEntry>, sheet: Option<Surface>, images: map<string, Surface>): Result<seq<Frame>, LoadError>
  {
    if entries == [] then Ok([])
    else
      match DecodeFrames(entries[..|entries| - 1], sheet, images)
      case Err(e) => Err(e)
      case Ok(fs) =>
        match DecodeEntry(entries[|entries| - 1], sheet, images)
        case Err(e) => Err(e)
        case Ok(None) => Ok(fs)
        case Ok(Some(f)) => Ok(fs + [f])
  }

  /** Once an entry fails, the whole read fails with that entry's error. */
  lemma {:induction false} DecodeErrorPersists(entries: seq<FrameEntry>, sheet: Option<Surface>, images: map<string, Surface>,
                                               k: nat, m: nat)
    requires k <= m <= |entries| && DecodeFrames(entries[..k], sheet, images).Err?
    ensures DecodeFrames(entries[..m], sheet, images) == DecodeFrames(entries[..k], sheet, images)
    decreases m
  {
    if m > k {
      DecodeErrorPersists(entries, sheet, images, k, m - 1);
      assert entries[..m][..m - 1] == entries[..m - 1];
    }
  }

  /** How many of `entries` the reader turns into frames. */
  function UsableCount(entries: seq<FrameEntry>, hasSheet: bool): nat
  {
    if entries == [] then 0
    else UsableCount(entries[..|entries| - 1], hasSheet) + if Usable(entries[|entries| - 1], hasSheet) then 1 else 0
  }

  /** A successful read yields one frame per usable entry; unusable entries are skipped. */
  lemma {:induction false} DecodedCount(entries: seq<FrameEntry>, sheet: Option<Surface>, images: map<string, Surface>)
    requires DecodeFrames(entries, sheet, images).Ok?
    ensures |DecodeFrames(entries, sheet, images).value| == UsableCount(entries, sheet.Some?)
  {
    if entries != [] {
      DecodedCount(entries[..|entries| - 1], sheet, images);
    }
  }

  /** The spritesheet the reader loads before the frame loop, when the manifest names one. */
  function SheetOf(doc: Document, images: map<string, Surface>): (r: Result<Option<Surface>, LoadError>)
    ensures doc.spritesheet.None? ==> r == Ok(None)
    ensures doc.spritesheet.Some? ==>
      (r.Ok? <==> doc.spritesheet.value in images) &&
      (r.Ok? ==> r.value == Some(images[doc.spritesheet.value]))
  {
    match doc.spritesheet
    case None => Ok(None)
    case Some(file) => if file in images then Ok(Some(images[file])) else Err(MissingImage(file))
  }

  /** The decimal digits of `n`, as an f-string writes them. */
  function NatToString(n: nat): (s: string)
    ensures |s| >= 1 && (n >= 10 ==> |s| >= 2)
    ensures forall k :: 0 <= k < |s| ==> '0' <= s[k] <= '9'
    decreases n
  {
    if n < 10 then ["0123456789"[n]] else NatToString(n / 10) + ["0123456789"[n % 10]]
  }

  /** Different numbers are written differently. */
  lemma {:induction false} NatToStringInjective(a: nat, b: nat)
    requires NatToString(a) == NatToString(b)
    ensures a == b
    decreases a
  {
    var s := NatToString(a);
    if a >= 10 && b >= 10 {
      assert s[..|s| - 1] == NatToString(a / 10) && s[..|s| - 1] == NatToString(b / 10);
      NatToStringInjective(a / 10, b / 10);
      assert "0123456789"[a % 10] == s[|s| - 1] == "0123456789"[b % 10];
    }
  }

  /** f"{name}_frame_{i}.png": the file the writer saves frame `i` to. */
  function FrameFileName(name: string, i: nat): (f: string)
    ensures |f| > |name| + 4 && EndsWith(f, ".png") && f[..|name|] == name
  {
    name + "_frame_" + NatToString(i) + ".png"
  }

  /** The frames of one animation are saved to different files. */
  lemma FrameFileNameInjective(name: string, i: nat, j: nat)
    requires FrameFileName(name, i) == FrameFileName(name, j)
    ensures i == j
  {
    var p := name + "_frame_";
    var f := FrameFileName(name, i);
    assert |NatToString(i)| == |NatToString(j)|;
    assert NatToString(i) == f[|p|..|f| - 4] == NatToString(j);
    NatToStringInjective(i, j);
  }

  /** The image files written for `frames`: file i holds frame i's surface. */
  function WrittenFiles(name: string, frames: seq<Frame>): map<string, Surface>
  {
    if frames == [] then map[]
    else WrittenFiles(name, frames[..|frames| - 1])[FrameFileName(name, |frames| - 1) := frames[|frames| - 1].surface]
  }

  lemma WrittenFilesStep(name: string, frames: seq<Frame>, i: nat)
    requires i < |frames|
    ensures WrittenFiles(name, frames[..i + 1]) == WrittenFiles(name, frames[..i])[FrameFileName(name, i) := frames[i].surface]
  {
    assert frames[..i + 1][..i] == frames[..i];
  }

  /** Every frame's file is written, and holds that frame's surface. */
  lemma {:induction false} WrittenFileHolds(name: string, frames: seq<Frame>, i: nat)
    requires i < |frames|
    ensures FrameFileName(name, i) in WrittenFiles(name, frames)
    ensures WrittenFiles(name, frames)[FrameFileName(name, i)] == frames[i].surface
  {
    if i < |frames| - 1 {
      WrittenFileHolds(name, frames[..|frames| - 1], i);
      if FrameFileName(name, i) == FrameFileName(name, |frames| - 1) {
        FrameFileNameInjective(name, i, |frames| - 1);
      }
    }
  }

  /**
   * The entry the writer records for frame `i`: with a sheet, its index and,
   * when `withRect` holds, its cell [Offset(i, w), 0, w, h] (i * w, by
   * OffsetIsProduct) of a strip sheet of `size` = (w, h) cells; without a
   * sheet, its file.
   */
  function EntryFor(name: string, i: nat, f: Frame, withSheet: bool, withRect: bool, size: (nat, nat)): (e: FrameEntry)
    ensures e.duration == Some(f.duration) && e.pivot == Some(f.pivot)
    ensures withSheet ==> e.index == Some(i) && e.file == None
    ensures withSheet && withRect ==> e.rect == Some([Offset(i, size.0), 0, size.0, size.1])
    ensures !(withSheet && withRect) ==> e.rect == None
    ensures !withSheet ==> e.file == Some(FrameFileName(name, i)) && e.index == None
  {
    if withSheet then
      FrameEntry(if withRect then Some([Offset(i, size.0), 0, size.0, size.1]) else None, None, Some(i), Some(f.duration), Some(f.pivot))
    else FrameEntry(None, Some(FrameFileName(name, i)), None, Some(f.duration), Some(f.pivot))
  }

  /** The entries the writer records for `frames`, in order: entry i is frame i's. */
  function Entries(name: string, frames: seq<Frame>, withSheet: bool, withRect: bool, size: (nat, nat)): (es: seq<FrameEntry>)
    ensures |es| == |frames|
  {
    if frames == [] then []
    else Entries(name, frames[..|frames| - 1], withSheet, withRect, size) +
         [EntryFor(name, |frames| - 1, frames[|frames| - 1], withSheet, withRect, size)]
  }

  /** Entry i of the list is the one recorded for frame i. */
  lemma {:induction false} EntriesAt(name: string, frames: seq<Frame>, withSheet: bool, withRect: bool, size: (nat, nat), i: nat)
    requires i < |frames|
    ensures Entries(name, frames, withSheet, withRect, size)[i] == EntryFor(name, i, frames[i], withSheet, withRect, size)
  {
    if i < |frames| - 1 {
      EntriesAt(name, frames[..|frames| - 1], withSheet, withRect, size, i);
    }
  }

  lemma EntriesStep(name: string, frames: seq<Frame>, withSheet: bool, withRect: bool, size: (nat, nat), i: nat)
    requires i < |frames|
    ensures Entries(name, frames[..i + 1], withSheet, withRect, size) ==
      Entries(name, frames[..i], withSheet, withRect, size) + [EntryFor(name, i, frames[i], withSheet, withRect, size)]
  {
    assert frames[..i + 1][..i] == frames[..i];
  }

  /** The cell size of the strip sheet the frames are packed into: the first frame's size. */
  function CellSize(frames: seq<Frame>): (size: (nat, nat))
    ensures frames != [] && frames[0].surface.WellFormed() ==>
      size == (frames[0].surface.width, frames[0].surface.height)
  {
    if frames == [] then (0, 0)
    else
      var s := frames[0].surface;
      (if s.width < 0 then 0 else s.width, if s.height < 0 then 0 else s.height)
  }

  /** The frames' surfaces, in order. */
  function Surfaces(frames: seq<Frame>): (surfs: seq<Surface>)
    ensures |surfs| == |frames| && forall i :: 0 <= i < |frames| ==> surfs[i] == frames[i].surface
  {
    seq(|frames|, i requires 0 <= i < |frames| => frames[i].surface)
  }

  /** The strip sheet the animation editor's exporter packs the frames into. */
  function PackedSheet(frames: seq<Frame>): (sheet: Surface)
    requires AllWellFormed(Surfaces(frames))
  {
    StripSheet(Surfaces(frames), CellSize(frames).0, CellSize(frames).1, |frames|)
  }

  /** The last path component of `path`, as os.path.basename gives it. */
  function Basename(path: string): (b: string)
    ensures |b| <= |path| && b == path[|path| - |b|..] && '/' !in b
    ensures |b| < |path| ==> path[|path| - |b| - 1] == '/'
  {
    if path == [] || path[|path| - 1] == '/' then []
    else Basename(path[..|path| - 1]) + [path[|path| - 1]]
  }

  /**
   * The name-keyed registry.  Every key names the animation stored under it,
   * because register files an animation under its own name.
   */
  class AnimationManager {
    var animations: map<string, Animation>

    ghost predicate Valid()
      reads this
    {
      forall k :: k in animations ==> animations[k].name == k
    }

    constructor ()
      ensures Valid() && animations == map[]
    {
      animations := map[];
    }

    /** register: file `animation` under its name, replacing any animation of that name. */
    method Register(animation: Animation)
      requires Valid()
      modifies this`animations
      ensures Valid()
      ensures animations == old(animations)[animation.name := animation]
    {
      animations := animations[animation.name := animation];
    }

    /** get: the animation registered under `name`, or None. */
    function Get(name: string): (r: Option<Animation>)
      reads this
      ensures r.None? <==> name !in animations
      ensures r.Some? ==> r.value == animations[name]
    {
      if name in animations then Some(animations[name]) else None
    }

    /** unregister: drop `name` if present; every other entry stays. */
    method Unregister(name: string)
      requires Valid()
      modifies this`animations
      ensures Valid()
      ensures animations == old(animations) - {name}
      ensures name !in animations && forall k :: k in old(animations) && k != name ==> k in animations && animations[k] == old(animations)[k]
    {
      if name in animations {
        animations := animations - {name};
      }
    }

    /**
     * save_animation_json: the manifest and the frame image files written
     * for the animation registered as `name`.  With a (non-empty)
     * spritesheet path the entries record each frame's index and its cell
     * of the strip sheet, and no image is written; otherwise frame i is
     * saved as FrameFileName(name, i).
     */
    method SaveAnimationJson(name: string, spritesheetPath: Option<string>)
      returns (r: Result<(Document, map<string, Surface>), SaveError>)
      ensures name !in animations ==> r == Err(UnknownAnimation(name))
      ensures name in animations ==>
        r == Ok(Encode(animations[name].name, animations[name].loop, animations[name].frames, spritesheetPath))
    {
      var anim := Get(name);
      if anim.None? {
        return Err(UnknownAnimation(name));
      }
      var a := anim.value;
      var frames := a.frames;
      var withSheet := spritesheetPath.Some? && spritesheetPath.value != "";
      var entries, written := WriteFrames(a.name, frames, withSheet, true);
      var sheet := if withSheet then Some(Basename(spritesheetPath.value)) else None;
      return Ok((Document(Some(a.name), Some(a.loop), sheet, Some(entries)), written));
    }

    /**
     * load_animation_json: read a manifest, build its animation (name
     * default "anim", loop default true), decode the frame entries in
     * order, and register the result.  A failure leaves the registry alone.
     */
    method LoadAnimationJson(doc: Document, images: map<string, Surface>) returns (r: Result<Animation, LoadError>)
      requires Valid()
      modifies this`animations
      ensures Valid()
      ensures Decode(doc, images).Err? <==> r.Err?
      ensures r.Err? ==> animations == old(animations) && r.error == Decode(doc, images).error
      ensures r.Ok? ==> (fresh(r.value) &&
        Decode(doc, images).value == (r.value.name, r.value.loop, r.value.frames) &&
        animations == old(animations)[r.value.name := r.value])
    {
      var anim := new Animation(OrElse(doc.name, DefaultName), OrElse(doc.loop, true));
      var entries := OrElse(doc.frames, []);
      var sheet: Option<Surface> := None;
      if doc.spritesheet.Some? {
        if doc.spritesheet.value !in images {
          return Err(MissingImage(doc.spritesheet.value));
        }
        sheet := Some(images[doc.spritesheet.value]);
      }
      assert SheetOf(doc, images) == Ok(sheet);
      for i := 0 to |entries|
        invariant animations == old(animations)
        invariant DecodeFrames(entries[..i], sheet, images) == Ok(anim.frames)
      {
        assert entries[..i + 1][..i] == entries[..i];
        var fr := entries[i];
        if sheet.Some? && fr.rect.Some? {
          var rect := fr.rect.value;
          if |rect| != 4 || rect[2] < 0 || rect[3] < 0 {
            DecodeErrorPersists(entries, sheet, images, i + 1, |entries|);
            assert entries[..|entries|] == entries;
            return Err(BadRect(rect));
          }
          var surf := Crop(sheet.value, rect[0], rect[1], rect[2], rect[3]);
          anim.AddFrame(Frame(surf, OrElse(fr.duration, DefaultDuration), OrElse(fr.pivot, DefaultPivot)), None);
        } else if fr.file.Some? {
          if fr.file.value !in images {
            DecodeErrorPersists(entries, sheet, images, i + 1, |entries|);
            assert entries[..|entries|] == entries;
            return Err(MissingImage(fr.file.value));
          }
          var surf := images[fr.file.value];
          anim.AddFrame(Frame(surf, OrElse(fr.duration, DefaultDuration), OrElse(fr.pivot, DefaultPivot)), None);
        }
      }
      assert entries[..|entries|] == entries;
      Register(anim);
      return Ok(anim);
    }
  }

  /**
   * The frame loop of save_animation_json: the entry recorded for each
   * frame, in order, and the image files saved when there is no sheet.
   * `withRect` says whether sheet entries record their cell's rect.
   */
  method WriteFrames(name: string, frames: seq<Frame>, withSheet: bool, withRect: bool)
    returns (entries: seq<FrameEntry>, written: map<string, Surface>)
    ensures entries == Entries(name, frames, withSheet, withRect, CellSize(frames))
    ensures written == if withSheet then map[] else WrittenFiles(name, frames)
  {
    var size := CellSize(frames);
    var x := 0;
    entries, written := [], map[];
    for i := 0 to |frames|
      invariant entries == Entries(name, frames[..i], withSheet, withRect, size)
      invariant written == if withSheet then map[] else WrittenFiles(name, frames[..i])
      invariant x == Offset(i, size.0)
    {
      var f := frames[i];
      var e;
      if withSheet {
        e := FrameEntry(if withRect then Some([x, 0, size.0, size.1]) else None, None, Some(i), Some(f.duration), Some(f.pivot));
      } else {
        var file := FrameFileName(name, i);
        WrittenFilesStep(name, frames, i);
        written := written[file := f.surface];
        e := FrameEntry(None, Some(file), None, Some(f.duration), Some(f.pivot));
      }
      EntriesStep(name, frames, withSheet, withRect, size, i);
      entries := entries + [e];
      x := x + size.0;
    }
    WholePrefix(frames);
  }

  /**
   * The manifest and image files of a save: with a (non-empty) spritesheet
   * path the entries name the frames' cells of the sheet (rects only when
   * `withRect`) and no image is written; otherwise each frame gets a file.
   */
  function Manifest(name: string, loop: bool, frames: seq<Frame>, spritesheetPath: Option<string>, withRect: bool): (Document, map<string, Surface>)
  {
    var withSheet := spritesheetPath.Some? && spritesheetPath.value != "";
    (Document(Some(name), Some(loop), if withSheet then Some(Basename(spritesheetPath.value)) else None,
              Some(Entries(name, frames, withSheet, withRect, CellSize(frames)))),
     if withSheet then map[] else WrittenFiles(name, frames))
  }

  /** The manifest of a save with a (non-empty) spritesheet path. */
  lemma SheetDocument(name: string, loop: bool, frames: seq<Frame>, path: string, withRect: bool) returns (doc: Document)
    requires path != ""
    ensures doc == Manifest(name, loop, frames, Some(path), withRect).0
    ensures doc == Document(Some(name), Some(loop), Some(Basename(path)), Some(Entries(name, frames, true, withRect, CellSize(frames))))
  {
    doc := Manifest(name, loop, frames, Some(path), withRect).0;
  }

  /** What save_animation_json writes, with the sheet entries recording their rects as its documentation promises. */
  function Encode(name: string, loop: bool, frames: seq<Frame>, spritesheetPath: Option<string>): (Document, map<string, Surface>)
  {
    Manifest(name, loop, frames, spritesheetPath, true)
  }

  /** What save_animation_json writes as the code stands: sheet entries carry only "index", which the reader ignores. */
  function EncodeAsWritten(name: string, loop: bool, frames: seq<Frame>, spritesheetPath: Option<string>): (Document, map<string, Surface>)
  {
    Manifest(name, loop, frames, spritesheetPath, false)
  }

  /** What load_animation_json builds from a manifest: the name, the loop flag and the frames, or the first error. */
  function Decode(doc: Document, images: map<string, Surface>): Result<(string, bool, seq<Frame>), LoadError>
  {
    match SheetOf(doc, images)
    case Err(e) => Err(e)
    case Ok(sheet) =>
      match DecodeFrames(OrElse(doc.frames, []), sheet, images)
      case Err(e) => Err(e)
      case Ok(frames) => Ok((OrElse(doc.name, DefaultName), OrElse(doc.loop, true), frames))
  }

  /**
   * Saving an animation without a spritesheet and reading the manifest back
   * with the written images gives the same name, loop flag and frames.
   */
  lemma SaveLoadRoundTrip(name: string, loop: bool, frames: seq<Frame>)
    ensures var (doc, files) := Encode(name, loop, frames, None);
      Decode(doc, files) == Ok((name, loop, frames))
  {
    var (doc, files) := Encode(name, loop, frames, None);
    var entries := doc.frames.value;
    forall i | 0 <= i < |frames|
      ensures entries[i] == FrameEntry(None, Some(FrameFileName(name, i)), None, Some(frames[i].duration), Some(frames[i].pivot))
    {
      EntriesAt(name, frames, false, true, CellSize(frames), i);
    }
    forall k | 0 <= k <= |frames|
      ensures DecodeFrames(entries[..k], None, files) == Ok(frames[..k])
    {
      DecodePrefix(name, frames, files, entries, k);
    }
    assert entries[..|frames|] == entries && frames[..|frames|] == frames;
  }

  lemma {:induction false} DecodePrefix(name: string, frames: seq<Frame>, files: map<string, Surface>,
                                        entries: seq<FrameEntry>, k: nat)
    requires files == WrittenFiles(name, frames)
    requires |entries| == |frames|
    requires forall i :: 0 <= i < |frames| ==>
      entries[i] == FrameEntry(None, Some(FrameFileName(name, i)), None, Some(frames[i].duration), Some(frames[i].pivot))
    requires k <= |frames|
    ensures DecodeFrames(entries[..k], None, files) == Ok(frames[..k])
  {
    if k > 0 {
      DecodePrefix(name, frames, files, entries, k - 1);
      WrittenFileHolds(name, frames, k - 1);
      DecodeAppend(entries, None, files, k, frames[..k - 1], frames[k - 1]);
      PrefixStep(frames, k);
    }
  }

  /** One more entry that decodes to a frame adds that frame to the prefix's frames. */
  lemma DecodeAppend(entries: seq<FrameEntry>, sheet: Option<Surface>, images: map<string, Surface>, k: nat,
                     fs: seq<Frame>, f: Frame)
    requires 0 < k <= |entries|
    requires DecodeFrames(entries[..k - 1], sheet, images) == Ok(fs)
    requires DecodeEntry(entries[k - 1], sheet, images) == Ok(Some(f))
    ensures DecodeFrames(entries[..k], sheet, images) == Ok(fs + [f])
  {
    assert entries[..k][..k - 1] == entries[..k - 1];
  }

  /**
   * As written, a manifest saved with a spritesheet reads back with no
   * frames at all: its entries carry neither "rect" nor "file", so the
   * reader skips every one of them.
   */
  lemma SheetManifestAsWrittenLosesFrames(name: string, loop: bool, frames: seq<Frame>, path: string,
                                          images: map<string, Surface>)
    requires path != "" && Basename(path) in images
    ensures Decode(EncodeAsWritten(name, loop, frames, Some(path)).0, images) == Ok((name, loop, []))
  {
    var doc := SheetDocument(name, loop, frames, path, false);
    IndexOnlyEntries(name, frames, CellSize(frames));
    DecodeSkipped(doc, images);
  }

  /** Sheet entries written without rects name neither a cell nor a file. */
  lemma IndexOnlyEntries(name: string, frames: seq<Frame>, size: (nat, nat))
    ensures forall i :: 0 <= i < |frames| ==>
      Entries(name, frames, true, false, size)[i].rect.None? && Entries(name, frames, true, false, size)[i].file.None?
  {
    forall i | 0 <= i < |frames|
      ensures Entries(name, frames, true, false, size)[i].rect.None? && Entries(name, frames, true, false, size)[i].file.None?
    {
      EntriesAt(name, frames, true, false, size, i);
    }
  }

  /** A manifest whose sheet is present and whose entries name neither a cell nor a file reads back with no frames. */
  lemma DecodeSkipped(doc: Document, images: map<string, Surface>)
    requires doc.spritesheet.Some? && doc.spritesheet.value in images && doc.frames.Some?
    requires forall i :: 0 <= i < |doc.frames.value| ==> doc.frames.value[i].rect.None? && doc.frames.value[i].file.None?
    ensures Decode(doc, images) == Ok((OrElse(doc.name, DefaultName), OrElse(doc.loop, true), []))
  {
    var entries := doc.frames.value;
    SkippedEntries(entries, Some(images[doc.spritesheet.value]), images, |entries|);
    WholePrefix(entries);
  }

  /** Entries with neither "rect" nor "file" decode to no frames. */
  lemma {:induction false} SkippedEntries(entries: seq<FrameEntry>, sheet: Option<Surface>, images: map<string, Surface>, k: nat)
    requires k <= |entries| && forall i :: 0 <= i < |entries| ==> entries[i].rect.None? && entries[i].file.None?
    ensures DecodeFrames(entries[..k], sheet, images) == Ok([])
  {
    if k > 0 {
      SkippedEntries(entries, sheet, images, k - 1);
      assert entries[..k][..k - 1] == entries[..k - 1];
    }
  }

  /** A one-frame animation saved with a spritesheet, as written, loses its frame on the way back. */
  lemma SheetManifestAsWrittenCounterexample(f: Frame)
    ensures Decode(EncodeAsWritten("walk", true, [f], Some("walk.png")).0, map["walk.png" := f.surface]) != Ok(("walk", true, [f]))
  {
    assert Basename("walk.png") == "walk.png";
    SheetManifestAsWrittenLosesFrames("walk", true, [f], "walk.png", map["walk.png" := f.surface]);
  }

  /**
   * Saving with a spritesheet path and reading the manifest back against
   * the strip sheet the exporter packs gives the same name, loop flag and
   * frames, when every frame has the first frame's size.
   */
  lemma SheetSaveLoadRoundTrip(name: string, loop: bool, frames: seq<Frame>, path: string)
    requires path != "" && AllSized(Surfaces(frames), CellSize(frames).0, CellSize(frames).1)
    ensures Decode(Encode(name, loop, frames, Some(path)).0, map[Basename(path) := PackedSheet(frames)]) == Ok((name, loop, frames))
  {
    var doc := Encode(name, loop, frames, Some(path)).0;
    var sheet := PackedSheet(frames);
    var images := map[Basename(path) := sheet];
    var entries := doc.frames.value;
    var (fw, fh) := CellSize(frames);
    SheetEntries(name, loop, frames, path);
    SheetCells(frames);
    SheetPrefix(frames, entries, sheet, images, fw, fh, |frames|);
    WholePrefix(entries);
    WholePrefix(frames);
    assert SheetOf(doc, images) == Ok(Some(sheet));
  }

  lemma WholePrefix<T>(s: seq<T>)
    ensures s[..|s|] == s
  {
  }

  /** The sheet entries a save records: each frame's cell, duration and pivot. */
  lemma SheetEntries(name: string, loop: bool, frames: seq<Frame>, path: string)
    requires path != ""
    ensures var doc := Encode(name, loop, frames, Some(path)).0;
      doc.name == Some(name) && doc.loop == Some(loop) && doc.spritesheet == Some(Basename(path)) &&
      doc.frames.Some? && |doc.frames.value| == |frames| &&
      forall i :: 0 <= i < |frames| ==>
        doc.frames.value[i].rect == Some([Offset(i, CellSize(frames).0), 0, CellSize(frames).0, CellSize(frames).1]) &&
        doc.frames.value[i].duration == Some(frames[i].duration) && doc.frames.value[i].pivot == Some(frames[i].pivot)
  {
    forall i | 0 <= i < |frames|
      ensures Encode(name, loop, frames, Some(path)).0.frames.value[i] == EntryFor(name, i, frames[i], true, true, CellSize(frames))
    {
      EntriesAt(name, frames, true, true, CellSize(frames), i);
    }
  }

  /** Every cell of the packed sheet holds its frame. */
  lemma SheetCells(frames: seq<Frame>)
    requires AllSized(Surfaces(frames), CellSize(frames).0, CellSize(frames).1)
    ensures forall i :: 0 <= i < |frames| ==>
      Crop(PackedSheet(frames), Offset(i, CellSize(frames).0), 0, CellSize(frames).0, CellSize(frames).1) == frames[i].surface
  {
    var (fw, fh) := CellSize(frames);
    forall i | 0 <= i < |frames|
      ensures Crop(PackedSheet(frames), Offset(i, fw), 0, fw, fh) == frames[i].surface
    {
      CropOfStrip(Surfaces(frames), fw, fh, i);
    }
  }

  lemma {:induction false} SheetPrefix(frames: seq<Frame>, entries: seq<FrameEntry>, sheet: Surface,
                                       images: map<string, Surface>, fw: nat, fh: nat, k: nat)
    requires |entries| == |frames| && k <= |frames|
    requires forall i :: 0 <= i < |frames| ==>
      entries[i].rect == Some([Offset(i, fw), 0, fw, fh]) &&
      entries[i].duration == Some(frames[i].duration) && entries[i].pivot == Some(frames[i].pivot)
    requires forall i :: 0 <= i < |frames| ==> Crop(sheet, Offset(i, fw), 0, fw, fh) == frames[i].surface
    ensures DecodeFrames(entries[..k], Some(sheet), images) == Ok(frames[..k])
  {
    if k > 0 {
      SheetPrefix(frames, entries, sheet, images, fw, fh, k - 1);
      var i := k - 1;
      CellDecodes(entries[i], frames[i], sheet, images, Offset(i, fw), fw, fh);
      DecodeAppend(entries, Some(sheet), images, k, frames[..i], frames[i]);
      PrefixStep(frames, k);
    }
  }

  /** An entry naming the cell that holds frame `f`, with its duration and pivot, reads back as `f`. */
  lemma CellDecodes(e: FrameEntry, f: Frame, sheet: Surface, images: map<string, Surface>, x: int, fw: nat, fh: nat)
    requires e.rect == Some([x, 0, fw, fh]) && e.duration == Some(f.duration) && e.pivot == Some(f.pivot)
    requires Crop(sheet, x, 0, fw, fh) == f.surface
    ensures DecodeEntry(e, Some(sheet), images) == Ok(Some(f))
  {
  }

  /** Cutting cell i out of a strip sheet of equally sized frames gives frame i back. */
  lemma CropOfStrip(surfs: seq<Surface>, fw: nat, fh: nat, i: nat)
    requires AllSized(surfs, fw, fh) && i < |surfs|
    ensures Crop(StripSheet(surfs, fw, fh, |surfs|), Offset(i, fw), 0, fw, fh) == surfs[i]
  {
    var sheet := StripSheet(surfs, fw, fh, |surfs|);
    var c := Crop(sheet, Offset(i, fw), 0, fw, fh);
    forall r | 0 <= r < fh
      ensures c.pixels[r] == surfs[i].pixels[r]
    {
      CropRow(surfs, fw, fh, i, r);
    }
  }

  /** Row r of cell i of a strip sheet is row r of frame i. */
  lemma CropRow(surfs: seq<Surface>, fw: nat, fh: nat, i: nat, r: nat)
    requires AllSized(surfs, fw, fh) && i < |surfs| && r < fh
    ensures Crop(StripSheet(surfs, fw, fh, |surfs|), Offset(i, fw), 0, fw, fh).pixels[r] == surfs[i].pixels[r]
  {
    var c := Crop(StripSheet(surfs, fw, fh, |surfs|), Offset(i, fw), 0, fw, fh);
    forall j | 0 <= j < fw
      ensures c.pixels[r][j] == surfs[i].pixels[r][j]
    {
      CropPixel(surfs, fw, fh, i, r, j);
    }
  }

  /** Pixel (r, j) of cell i of a strip sheet is pixel (r, j) of frame i. */
  lemma CropPixel(surfs: seq<Surface>, fw: nat, fh: nat, i: nat, r: nat, j: nat)
    requires AllSized(surfs, fw, fh) && i < |surfs| && r < fh && j < fw
    ensures Crop(StripSheet(surfs, fw, fh, |surfs|), Offset(i, fw), 0, fw, fh).pixels[r][j] == surfs[i].pixels[r][j]
  {
    StripPlacesFrames(surfs, fw, fh, |surfs|, i, r, j);
  }
}
